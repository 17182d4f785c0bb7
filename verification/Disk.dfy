/** A storage tree: regular files and directories by path, and its traversal. */
module Disk {
  import opened Wrappers
  import opened Storage

  datatype File = File(bytes: Bytes, mtime: int)

  type Files = map<Path, File>

  predicate Child(dir: Path, p: Path) {
    |p| == |dir| + 1 && p[..|dir|] == dir
  }

  function Parent(p: Path): Path
    requires p != []
  {
    p[..|p| - 1]
  }

  function Name(p: Path): string
    requires p != []
  {
    p[|p| - 1]
  }

  /** The `k`-th element has not occurred before. */
  ghost predicate Fresh<T>(s: seq<T>, k: nat)
    requires k < |s|
  {
    s[k] !in s[..k]
  }

  ghost predicate NoDuplicates<T>(s: seq<T>) {
    forall k :: 0 <= k < |s| ==> Fresh(s, k)
  }

  lemma Extend<T>(s: seq<T>, x: T)
    requires NoDuplicates(s) && x !in s
    ensures NoDuplicates(s + [x])
  {
    forall k | 0 <= k < |s + [x]| ensures Fresh(s + [x], k) {
      assert (s + [x])[..k] == s[..k];
      assert k < |s| ==> Fresh(s, k);
    }
  }

  /** Every entry has a parent directory, and no path is both a file and a directory. */
  ghost predicate Tree(files: Files, dirs: set<Path>) {
    && [] in dirs && files.Keys !! dirs
    && (forall p {:trigger Parent(p)} :: p in files.Keys + dirs && p != [] ==> Parent(p) in dirs)
  }

  /** `root`, or a directory it should be in, is a regular file. */
  predicate Blocked(files: Files, root: Path) {
    exists k :: 0 <= k <= |root| && root[..k] in files
  }

  class Disk {
    var files: Files
    const dirs: set<Path>

    ghost predicate Valid()
      reads this
    {
      Tree(files, dirs)
    }

    /** `read_dir`: every entry once, in no particular order. */
    method ReadDir(dir: Path) returns (entries: seq<Path>)
      ensures NoDuplicates(entries)
      ensures forall p :: p in entries <==> Child(dir, p) && (p in files || p in dirs)
    {
      var left := set p | p in files.Keys + dirs && Child(dir, p);
      entries := [];
      while left != {}
        invariant NoDuplicates(entries)
        invariant forall p :: p in entries || p in left <==> Child(dir, p) && (p in files || p in dirs)
        invariant forall p :: p in entries ==> p !in left
        decreases left
      {
        var p :| p in left;
        Extend(entries, p);
        entries := entries + [p];
        left := left - {p};
      }
    }

    /** `collect_files`: every regular file below `root` exactly once; nothing if
        `root` does not exist, an error if it is a file or below one. */
    method CollectFiles(root: Path) returns (r: Option<seq<Path>>)
      requires Valid()
      ensures r.None? <==> Blocked(files, root)
      ensures r.Some? ==> NoDuplicates(r.value) && forall p :: p in r.value <==> p in files && root <= p
    {
      if Blocked(files, root) {
        return None;
      }
      assert root[..|root|] == root;
      if root !in dirs {
        NothingBelow(files, dirs, root);
        return Some([]);
      }
      var pending, found := [root], [];
      ghost var visited: set<Path> := {};
      while pending != []
        invariant Frontier(files, dirs, root, pending, visited)
        invariant NoDuplicates(found)
        invariant forall p :: p in found <==> p in files && Parent(p) in visited
        decreases dirs - visited
      {
        var n := |pending| - 1;
        var dir := pending[n];
        var entries := ReadDir(dir);
        var below, here := Partition(entries);
        PopAndPush(files, dirs, root, pending, visited, below);
        AddFound(files, found, visited, dir, here);
        pending := pending[..n] + below;
        found := found + here;
        visited := visited + {dir};
      }
      AllVisited(files, dirs, root, visited);
      r := Some(found);
    }

    /** The inner loop over the entries of one directory. */
    method Partition(entries: seq<Path>) returns (below: seq<Path>, here: seq<Path>)
      requires NoDuplicates(entries) && files.Keys !! dirs
      requires forall p :: p in entries ==> p in files || p in dirs
      ensures NoDuplicates(below) && forall p :: p in below <==> p in entries && p in dirs
      ensures NoDuplicates(here) && forall p :: p in here <==> p in entries && p in files
    {
      below, here := [], [];
      for i := 0 to |entries|
        invariant NoDuplicates(below) && forall p :: p in below <==> p in entries[..i] && p in dirs
        invariant NoDuplicates(here) && forall p :: p in here <==> p in entries[..i] && p in files
      {
        assert entries[..i + 1] == entries[..i] + [entries[i]];
        assert Fresh(entries, i);
        if entries[i] in dirs {
          Extend(below, entries[i]);
          below := below + [entries[i]];
        } else {
          Extend(here, entries[i]);
          here := here + [entries[i]];
        }
      }
      assert entries[..|entries|] == entries;
    }
  }

  /** The traversal: what was reached is below `root`, reached through a visited
      parent, and every subdirectory of a visited directory has been reached. */
  ghost predicate Frontier(files: Files, dirs: set<Path>, root: Path, pending: seq<Path>, visited: set<Path>) {
    && Tree(files, dirs) && visited <= dirs && NoDuplicates(pending)
    && (root in visited || root in pending)
    && (forall d :: d in pending ==> d in dirs && d !in visited)
    && (forall d :: d in visited || d in pending ==> root <= d && (d == root || (d != [] && Parent(d) in visited)))
    && (forall d {:trigger Parent(d)} :: d in dirs && d != [] && Parent(d) in visited ==> d in visited || d in pending)
  }

  lemma DropLast<T>(s: seq<T>)
    requires NoDuplicates(s) && s != []
    ensures NoDuplicates(s[..|s| - 1])
  {
    var rest := s[..|s| - 1];
    forall k | 0 <= k < |rest| ensures Fresh(rest, k) {
      assert Fresh(s, k) && rest[..k] == s[..k];
    }
  }

  lemma PopAndPush(files: Files, dirs: set<Path>, root: Path, pending: seq<Path>, visited: set<Path>, below: seq<Path>)
    requires Frontier(files, dirs, root, pending, visited) && pending != []
    requires NoDuplicates(below)
    requires forall p :: p in below <==> Child(pending[|pending| - 1], p) && p in dirs
    ensures Frontier(files, dirs, root, pending[..|pending| - 1] + below, visited + {pending[|pending| - 1]})
  {
    var n := |pending| - 1;
    var dir, rest := pending[n], pending[..n];
    var pending', visited' := rest + below, visited + {dir};
    assert pending == rest + [dir] && dir in pending;
    forall d | d in below ensures d != [] && Parent(d) == dir && d !in visited && d !in pending && root <= d {
      assert Child(dir, d);
      assert root <= dir && d != root;
    }
    assert forall d :: d in pending' <==> d in rest || d in below;
    assert Fresh(pending, n);
    assert forall d :: d in rest ==> d in pending && d != dir;
    DropLast(pending);
    Disjoint(rest, below);
    forall d | d in dirs && d != [] && Parent(d) in visited' ensures d in visited' || d in pending' {
      if Parent(d) == dir {
        assert Child(dir, d);
      }
    }
  }

  lemma AddFound(files: Files, found: seq<Path>, visited: set<Path>, dir: Path, here: seq<Path>)
    requires dir !in visited && NoDuplicates(found) && NoDuplicates(here)
    requires forall p :: p in files ==> p != []
    requires forall p :: p in found <==> p in files && Parent(p) in visited
    requires forall p :: p in here <==> Child(dir, p) && p in files
    ensures NoDuplicates(found + here)
    ensures forall p :: p in found + here <==> p in files && Parent(p) in visited + {dir}
  {
    assert forall p :: p in here ==> Parent(p) == dir;
    assert forall p :: p in files && Parent(p) == dir ==> Child(dir, p);
    Disjoint(found, here);
  }

  lemma Disjoint<T>(a: seq<T>, b: seq<T>)
    requires NoDuplicates(a) && NoDuplicates(b) && forall x :: x in a ==> x !in b
    ensures NoDuplicates(a + b)
  {
    forall k | 0 <= k < |a + b| ensures Fresh(a + b, k) {
      if k < |a| {
        assert (a + b)[..k] == a[..k];
        assert Fresh(a, k);
      } else {
        assert (a + b)[..k] == a + b[..k - |a|];
        assert Fresh(b, k - |a|);
        assert b[k - |a|] in b;
      }
    }
  }

  lemma ParentBelow(root: Path, p: Path)
    requires root <= p && p != root
    ensures p != [] && root <= Parent(p) <= p
  {
    assert root == p[..|root|];
  }

  lemma {:induction false} Visited(files: Files, dirs: set<Path>, root: Path, visited: set<Path>, d: Path)
    requires Frontier(files, dirs, root, [], visited) && d in dirs && root <= d
    ensures d in visited
    decreases |d|
  {
    if d != root {
      ParentBelow(root, d);
      Visited(files, dirs, root, visited, Parent(d));
    }
  }

  lemma AllVisited(files: Files, dirs: set<Path>, root: Path, visited: set<Path>)
    requires Frontier(files, dirs, root, [], visited) && root !in files
    ensures forall p :: p in files ==> (Parent(p) in visited <==> root <= p)
  {
    forall p | p in files ensures Parent(p) in visited <==> root <= p {
      if root <= p {
        ParentBelow(root, p);
        Visited(files, dirs, root, visited, Parent(p));
      }
      if Parent(p) in visited {
        assert root <= Parent(p) <= p;
      }
    }
  }

  lemma {:induction false} AncestorIsDir(files: Files, dirs: set<Path>, root: Path, d: Path)
    requires Tree(files, dirs) && d in dirs && root <= d
    ensures root in dirs
    decreases |d|
  {
    if d != root {
      ParentBelow(root, d);
      AncestorIsDir(files, dirs, root, Parent(d));
    }
  }

  lemma NothingBelow(files: Files, dirs: set<Path>, root: Path)
    requires Tree(files, dirs) && root !in dirs && root !in files
    ensures forall p :: p in files ==> !(root <= p)
  {
    forall p | p in files ensures !(root <= p) {
      if root <= p {
        ParentBelow(root, p);
        AncestorIsDir(files, dirs, root, Parent(p));
      }
    }
  }
}

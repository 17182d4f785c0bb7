/** Finding, splitting and joining octet strings at a delimiter. */
module Text {
  import opened Wrappers

  predicate At(s: Bytes, d: Bytes, k: nat) {
    k + |d| <= |s| && s[k..k + |d|] == d
  }

  ghost predicate Contains(s: Bytes, d: Bytes) {
    exists k: nat :: At(s, d, k)
  }

  /** The first occurrence of `d` in `s` at or after `from`. */
  function Find(s: Bytes, d: Bytes, from: nat): (r: Option<nat>)
    ensures r.Some? ==> from <= r.value && At(s, d, r.value) && forall j: nat :: from <= j < r.value ==> !At(s, d, j)
    ensures r.None? ==> forall j: nat :: from <= j ==> !At(s, d, j)
    decreases |s| - from
  {
    if from + |d| > |s| then None
    else if At(s, d, from) then Some(from)
    else Find(s, d, from + 1)
  }

  function SplitOn(s: Bytes, d: Bytes): (r: seq<Bytes>)
    requires d != []
    ensures r != []
    decreases |s|
  {
    match Find(s, d, 0)
    case None => [s]
    case Some(k) => [s[..k]] + SplitOn(s[k + |d|..], d)
  }

  function Join(parts: seq<Bytes>, d: Bytes): Bytes
    requires parts != []
  {
    if |parts| == 1 then parts[0] else parts[0] + d + Join(parts[1..], d)
  }

  lemma {:induction false} SplitPiecesAreFree(s: Bytes, d: Bytes)
    requires d != []
    ensures forall p :: p in SplitOn(s, d) ==> !Contains(p, d)
    decreases |s|
  {
    match Find(s, d, 0)
    case None =>
    case Some(k) =>
      SplitPiecesAreFree(s[k + |d|..], d);
      forall j: nat ensures !At(s[..k], d, j) {
        if j + |d| <= k {
          assert s[..k][j..j + |d|] == s[j..j + |d|];
          assert !At(s, d, j);
        }
      }
  }

  /** The first symbol of `d` does not come back, so `d` cannot overlap itself. */
  predicate Borderless(d: Bytes) {
    d != [] && d[0] !in d[1..]
  }

  lemma FirstDelimiter(p: Bytes, d: Bytes, rest: Bytes)
    requires Borderless(d) && !Contains(p, d)
    ensures Find(p + d + rest, d, 0) == Some(|p|)
  {
    var s := p + d + rest;
    assert s[|p|..|p| + |d|] == d;
    assert At(s, d, |p|);
    forall k: nat | k < |p| ensures !At(s, d, k) {
      if k + |d| <= |p| {
        assert s[k..k + |d|] == p[k..k + |d|];
        assert !At(p, d, k);
      } else if k + |d| <= |s| {
        var j := |p| - k;
        assert s[k..k + |d|][j] == s[|p|] == d[0];
        assert d[j] == d[1..][j - 1] && d[j] in d[1..];
      }
    }
  }

  /** Splitting undoes joining when no piece contains the delimiter. */
  lemma {:induction false} SplitJoin(parts: seq<Bytes>, d: Bytes)
    requires parts != [] && Borderless(d)
    requires forall p :: p in parts ==> !Contains(p, d)
    ensures SplitOn(Join(parts, d), d) == parts
  {
    if |parts| == 1 {
      var p := parts[0];
      assert p in parts;
      assert Find(p, d, 0).None?;
    } else {
      var p, rest := parts[0], Join(parts[1..], d);
      assert p in parts;
      FirstDelimiter(p, d, rest);
      SplitJoin(parts[1..], d);
      assert (p + d + rest)[..|p|] == p && (p + d + rest)[|p| + |d|..] == rest;
    }
  }

  /** And only then. */
  lemma SplitJoinExactlyWhen(parts: seq<Bytes>, d: Bytes)
    requires parts != [] && Borderless(d)
    ensures SplitOn(Join(parts, d), d) == parts <==> forall p :: p in parts ==> !Contains(p, d)
  {
    if SplitOn(Join(parts, d), d) == parts {
      SplitPiecesAreFree(Join(parts, d), d);
    } else if forall p :: p in parts ==> !Contains(p, d) {
      SplitJoin(parts, d);
    }
  }

  // ------------------------------------------------------------ small pieces

  predicate Blank(c: char) { c == ' ' || c == '\t' }

  function TrimLeft(s: Bytes): (r: Bytes)
    ensures |r| <= |s|
    ensures r != [] ==> !Blank(r[0])
  {
    if s != [] && Blank(s[0]) then TrimLeft(s[1..]) else s
  }

  function TrimRight(s: Bytes): (r: Bytes)
    ensures |r| <= |s|
    ensures r != [] ==> !Blank(r[|r| - 1])
  {
    if s != [] && Blank(s[|s| - 1]) then TrimRight(s[..|s| - 1]) else s
  }

  function Trim(s: Bytes): Bytes { TrimRight(TrimLeft(s)) }

  function LowerChar(c: char): char {
    if 'A' <= c <= 'Z' then (c as int + 32) as char else c
  }

  /** `to_ascii_lowercase`. */
  function Lower(s: Bytes): (r: Bytes)
    ensures |r| == |s|
  {
    seq(|s|, i requires 0 <= i < |s| => LowerChar(s[i]))
  }

  function LastDot(name: string): (r: Option<nat>)
    ensures r.Some? ==> r.value < |name| && name[r.value] == '.' && '.' !in name[r.value + 1..]
    ensures r.None? ==> '.' !in name
  {
    if name == "" then None
    else if name[|name| - 1] == '.' then Some(|name| - 1)
    else
      var r := LastDot(name[..|name| - 1]);
      assert r.Some? ==> name[r.value + 1..] == name[..|name| - 1][r.value + 1..] + [name[|name| - 1]];
      r
  }

  /** `Path::extension`: a leading dot alone does not start one. */
  function Extension(name: string): Option<string> {
    var k :- LastDot(name);
    if k == 0 then None else Some(name[k + 1..])
  }

  lemma {:induction false} LastDotOf(stem: string, extension: string)
    requires '.' !in extension
    ensures LastDot(stem + "." + extension) == Some(|stem|)
  {
    if extension != "" {
      var n := |extension| - 1;
      assert (stem + "." + extension)[..|stem| + 1 + n] == stem + "." + extension[..n];
      LastDotOf(stem, extension[..n]);
    }
  }

  lemma ExtensionOf(stem: string, extension: string)
    requires stem != "" && '.' !in extension
    ensures Extension(stem + "." + extension) == Some(extension)
  {
    LastDotOf(stem, extension);
    assert (stem + "." + extension)[|stem| + 1..] == extension;
  }

  /** A name has an extension exactly when it is a stem, a dot and that extension. */
  lemma ExtensionExactlyWhen(name: string, extension: string)
    ensures Extension(name) == Some(extension) <==>
            '.' !in extension && exists stem :: stem != "" && name == stem + "." + extension
  {
    if Extension(name) == Some(extension) {
      var k := LastDot(name).value;
      assert name == name[..k] + "." + extension;
    }
    if stem :| '.' !in extension && stem != "" && name == stem + "." + extension {
      ExtensionOf(stem, extension);
    }
  }
}

/** Directory listings in ascending order of file name. */
module Listing {
  /** Byte-wise lexicographic order. */
  predicate Less(a: string, b: string) {
    b != "" && (a == "" || a[0] < b[0] || (a[0] == b[0] && Less(a[1..], b[1..])))
  }

  lemma {:induction false} LessTrichotomy(a: string, b: string)
    ensures (Less(a, b) || Less(b, a)) <==> a != b
    ensures !(Less(a, b) && Less(b, a))
  {
    if a != "" && b != "" {
      LessTrichotomy(a[1..], b[1..]);
      assert a == [a[0]] + a[1..] && b == [b[0]] + b[1..];
    }
  }

  lemma {:induction false} LessTransitive(a: string, b: string, c: string)
    requires Less(a, b) && Less(b, c)
    ensures Less(a, c)
  {
    if a != "" && a[0] == b[0] == c[0] {
      LessTransitive(a[1..], b[1..], c[1..]);
    }
  }

  /** A name comes first if it is the beginning of the other, or has the smaller
      character where they first differ. */
  lemma {:induction false} LessExactlyWhen(a: string, b: string)
    ensures Less(a, b) <==> a < b || exists k :: FirstDifference(a, b, k) && a[k] < b[k]
  {
    if a != "" && b != "" && a[0] == b[0] {
      LessExactlyWhen(a[1..], b[1..]);
      assert a == [a[0]] + a[1..] && b == [b[0]] + b[1..];
      if k :| FirstDifference(a[1..], b[1..], k) && a[1..][k] < b[1..][k] {
        assert a[..k + 1] == [a[0]] + a[1..][..k] && b[..k + 1] == [b[0]] + b[1..][..k];
        assert FirstDifference(a, b, k + 1);
      }
      if k :| FirstDifference(a, b, k) && a[k] < b[k] {
        assert a[1..][..k - 1] == a[..k][1..] && b[1..][..k - 1] == b[..k][1..];
        assert FirstDifference(a[1..], b[1..], k - 1);
      }
    } else if a != "" && b != "" {
      assert a[..0] == b[..0];
      assert FirstDifference(a, b, 0);
    }
  }

  predicate FirstDifference(a: string, b: string, k: int) {
    0 <= k < |a| && k < |b| && a[..k] == b[..k] && a[k] != b[k]
  }

  ghost predicate Ascending(s: seq<string>) {
    forall i, j :: 0 <= i < j < |s| ==> Less(s[i], s[j])
  }

  /** `s` lists exactly `names`, in order. */
  ghost predicate Lists(s: seq<string>, names: set<string>) {
    Ascending(s) && forall n :: n in s <==> n in names
  }

  /** The order of a listing is determined by its names. */
  lemma {:induction false} ListingUnique(a: seq<string>, b: seq<string>, names: set<string>)
    requires Lists(a, names) && Lists(b, names)
    ensures a == b
  {
    if a != [] {
      assert a[0] in names;
    }
    if b != [] {
      assert b[0] in names;
    }
    if a != [] && b != [] {
      FirstIsLeast(a, b[0]);
      FirstIsLeast(b, a[0]);
      LessTrichotomy(a[0], b[0]);
      TailLists(a, names);
      TailLists(b, names);
      ListingUnique(a[1..], b[1..], names - {a[0]});
    }
  }

  lemma FirstIsLeast(s: seq<string>, n: string)
    requires Ascending(s) && n in s
    ensures n == s[0] || Less(s[0], n)
  {
  }

  lemma TailLists(s: seq<string>, names: set<string>)
    requires Lists(s, names) && s != []
    ensures Lists(s[1..], names - {s[0]})
  {
    assert s == [s[0]] + s[1..];
    LessTrichotomy(s[0], s[0]);
    forall n ensures n in s[1..] <==> n in names - {s[0]} {
      if n in s[1..] {
        var k :| 0 <= k < |s[1..]| && s[1..][k] == n;
        assert Less(s[0], s[k + 1]);
      }
      assert n in s <==> n == s[0] || n in s[1..];
    }
  }

  lemma Appends(s: seq<string>, n: string)
    requires Ascending(s) && forall m :: m in s ==> Less(m, n)
    ensures Ascending(s + [n])
  {
    forall i, j | 0 <= i < j < |s + [n]| ensures Less((s + [n])[i], (s + [n])[j]) {
      assert s[i] in s;
    }
  }

  /** The least of some names. */
  method Least(names: set<string>) returns (least: string)
    requires names != {}
    ensures least in names && forall m :: m in names && m != least ==> Less(least, m)
  {
    least :| least in names;
    var rest := names - {least};
    while rest != {}
      invariant rest <= names && least in names && least !in rest
      invariant forall m :: m in names && m != least && m !in rest ==> Less(least, m)
      decreases rest
    {
      var n :| n in rest;
      rest := rest - {n};
      LessTrichotomy(n, least);
      if Less(n, least) {
        forall m | m in names && m != n && m !in rest ensures Less(n, m) {
          if m != least {
            LessTransitive(n, least, m);
          }
        }
        least := n;
      }
    }
  }

  /** Collects names and sorts them. */
  method Sorted(names: set<string>) returns (s: seq<string>)
    ensures Lists(s, names)
  {
    s := [];
    var rest := names;
    while rest != {}
      invariant Ascending(s) && rest <= names
      invariant forall n :: n in names <==> n in s || n in rest
      invariant forall m, n :: m in s && n in rest ==> Less(m, n)
      decreases rest
    {
      var n := Least(rest);
      LessTrichotomy(n, n);
      Appends(s, n);
      s, rest := s + [n], rest - {n};
    }
  }

  /** Every set of names has a listing. */
  lemma {:induction false} ListingOf(names: set<string>) returns (s: seq<string>)
    ensures Lists(s, names)
  {
    if names == {} {
      s := [];
    } else {
      var last := Greatest(names);
      s := ListingOf(names - {last});
      Appends(s, last);
      s := s + [last];
    }
  }

  lemma {:induction false} Greatest(names: set<string>) returns (greatest: string)
    requires names != {}
    ensures greatest in names && forall m :: m in names && m != greatest ==> Less(m, greatest)
  {
    var n :| n in names;
    if names == {n} {
      greatest := n;
    } else {
      var other := Greatest(names - {n});
      LessTrichotomy(n, other);
      greatest := if Less(n, other) then other else n;
      forall m | m in names && m != greatest ensures Less(m, greatest) {
        if greatest == n && m != other {
          LessTransitive(m, other, n);
        }
      }
    }
  }
}

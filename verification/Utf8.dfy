/** Well-formed UTF-8, as in section 4 of RFC 3629, and the shortening of an error text. */
module Utf8 {

  type Octets = seq<nat>

  predicate Tail(b: nat) { 0x80 <= b <= 0xBF }

  /** How many octets a character that starts with `b` has; zero if none does. */
  function LeadLength(b: nat): nat {
    if b <= 0x7F then 1
    else if 0xC2 <= b <= 0xDF then 2
    else if 0xE0 <= b <= 0xEF then 3
    else if 0xF0 <= b <= 0xF4 then 4
    else 0
  }

  /** The narrower range of the second octet after some leads. */
  predicate SecondFits(lead: nat, second: nat) {
    && Tail(second)
    && (lead == 0xE0 ==> second >= 0xA0) && (lead == 0xED ==> second <= 0x9F)
    && (lead == 0xF0 ==> second >= 0x90) && (lead == 0xF4 ==> second <= 0x8F)
  }

  /** The length of the character at the front, or zero if there is none. */
  function FirstLength(s: Octets): (n: nat)
    ensures n <= |s| && n <= 4
    ensures forall k :: 0 < k < n ==> Tail(s[k])
    ensures n > 0 ==> !Tail(s[0])
  {
    if s == [] then 0
    else
      var n := LeadLength(s[0]);
      if n <= |s| && (n > 1 ==> SecondFits(s[0], s[1])) && forall k :: 0 < k < n ==> Tail(s[k]) then n else 0
  }

  predicate WellFormed(s: Octets) {
    s == [] || (FirstLength(s) > 0 && WellFormed(s[FirstLength(s)..]))
  }

  /** `is_char_boundary`. */
  predicate Boundary(s: Octets, i: nat) {
    i == 0 || i == |s| || (i < |s| && !Tail(s[i]))
  }

  lemma FirstOfPrefix(s: Octets, i: nat)
    requires i <= |s| && FirstLength(s) > 0
    ensures FirstLength(s[..i]) == if i < FirstLength(s) then 0 else FirstLength(s)
  {
  }

  lemma {:induction false} WellFormedTogether(a: Octets, b: Octets)
    requires WellFormed(a) && WellFormed(b)
    ensures WellFormed(a + b)
  {
    if a == [] {
      assert a + b == b;
    } else {
      var n := FirstLength(a);
      assert (a + b)[..|a|] == a;
      assert FirstLength(a + b) == n;
      WellFormedTogether(a[n..], b);
      assert (a + b)[n..] == a[n..] + b;
    }
  }

  /** The boundaries of a well-formed text are exactly where a prefix of it is well-formed. */
  lemma {:induction false} BoundaryExactly(s: Octets, i: nat)
    requires WellFormed(s) && i <= |s|
    ensures Boundary(s, i) <==> WellFormed(s[..i])
  {
    if 0 < i {
      var n := FirstLength(s);
      FirstOfPrefix(s, i);
      if i >= n {
        BoundaryExactly(s[n..], i - n);
        assert s[..i][n..] == s[n..][..i - n];
        assert i < |s| ==> s[i] == s[n..][i - n];
        assert n == i < |s| ==> FirstLength(s[n..]) > 0;
      }
    }
  }

  /** From anywhere in a well-formed text a boundary is at most three octets back. */
  lemma {:induction false} BoundaryNear(s: Octets, i: nat) returns (j: nat)
    requires WellFormed(s) && i <= |s|
    ensures j <= i <= j + 3 && Boundary(s, j)
  {
    var n := if s == [] then 0 else FirstLength(s);
    if i < n || s == [] {
      j := 0;
    } else {
      var k := BoundaryNear(s[n..], i - n);
      j := n + k;
      assert j < |s| ==> s[j] == s[n..][k];
      assert k == 0 && n < |s| ==> FirstLength(s[n..]) > 0;
    }
  }

  /** The ellipsis character. */
  const ELLIPSIS: Octets := [0xE2, 0x80, 0xA6]

  /** A text of more than 1024 octets is cut at the largest character boundary at
      or below octet 1021 and marked with an ellipsis. */
  method Truncated(message: Octets) returns (r: Octets, ghost end: nat)
    requires WellFormed(message)
    ensures |message| <= 1024 ==> r == message
    ensures |message| > 1024 ==>
              && 1018 <= end <= 1021 && r == message[..end] + [0xE2, 0x80, 0xA6]
              && WellFormed(message[..end])
              && forall k :: end < k <= 1021 ==> !WellFormed(message[..k])
    ensures WellFormed(r) && |r| <= 1024
  {
    end := 0;
    if |message| <= 1024 {
      return message, end;
    }
    ghost var near := BoundaryNear(message, 1021);
    var cut := 1021;
    while !Boundary(message, cut)
      invariant near <= cut <= 1021
      invariant forall k :: cut < k <= 1021 ==> !Boundary(message, k)
      decreases cut
    {
      cut := cut - 1;
    }
    forall k | cut <= k <= 1021 ensures Boundary(message, k) <==> WellFormed(message[..k]) {
      BoundaryExactly(message, k);
    }
    r, end := message[..cut] + ELLIPSIS, cut;
    assert ELLIPSIS[3..] == [];
    WellFormedTogether(message[..cut], ELLIPSIS);
  }
}

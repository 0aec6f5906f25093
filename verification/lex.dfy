/**
 Go's ordering of strings and the `sort.Strings` step that puts the
 report's labels in order.
 */
module Lex {

  /** The length of the longest common prefix of `a` and `b`. */
  function CommonPrefix(a: string, b: string): (k: nat)
    ensures k <= |a| && k <= |b|
    ensures a[..k] == b[..k]
    ensures k < |a| && k < |b| ==> a[k] != b[k]
    decreases |a|
  {
    if |a| == 0 || |b| == 0 || a[0] != b[0] then 0
    else
      var k := CommonPrefix(a[1..], b[1..]);
      assert a[..k + 1] == [a[0]] + a[1..][..k];
      assert b[..k + 1] == [b[0]] + b[1..][..k];
      k + 1
  }

  /** `a < b` on strings: the first differing character decides, and when
      there is none, the shorter string, a proper prefix of the other, comes
      first. */
  predicate Less(a: string, b: string): (r: bool)
    ensures r <==> var k := CommonPrefix(a, b);
      if k < |a| && k < |b| then a[k] < b[k] else |a| < |b|
    decreases |a|
  {
    if |a| == 0 then |b| > 0
    else if |b| == 0 then false
    else if a[0] != b[0] then a[0] < b[0]
    else Less(a[1..], b[1..])
  }

  lemma {:induction false} LessIrreflexive(a: string)
    ensures !Less(a, a)
    decreases |a|
  {
    if |a| > 0 {
      LessIrreflexive(a[1..]);
    }
  }

  lemma {:induction false} LessAsymmetric(a: string, b: string)
    ensures Less(a, b) ==> !Less(b, a)
    decreases |a|
  {
    if |a| > 0 && |b| > 0 && a[0] == b[0] {
      LessAsymmetric(a[1..], b[1..]);
    }
  }

  lemma {:induction false} LessTransitive(a: string, b: string, c: string)
    ensures Less(a, b) && Less(b, c) ==> Less(a, c)
    decreases |a|
  {
    if |a| > 0 && |b| > 0 && |c| > 0 && a[0] == b[0] && b[0] == c[0] {
      LessTransitive(a[1..], b[1..], c[1..]);
    }
  }

  lemma {:induction false} LessTotal(a: string, b: string)
    ensures a == b || Less(a, b) || Less(b, a)
    decreases |a|
  {
    if |a| > 0 && |b| > 0 && a[0] == b[0] {
      LessTotal(a[1..], b[1..]);
      if a[1..] == b[1..] {
        assert a == [a[0]] + a[1..] && b == [b[0]] + b[1..];
      }
    }
  }

  /** Strictly ascending: every earlier element is below every later one. */
  predicate StrictlySorted(ks: seq<string>) {
    forall i, j :: 0 <= i < j < |ks| ==> Less(ks[i], ks[j])
  }

  predicate Distinct(ks: seq<string>) {
    forall i, j :: 0 <= i < j < |ks| ==> ks[i] != ks[j]
  }

  /** A strictly ascending sequence has no duplicates. */
  lemma SortedDistinct(ks: seq<string>)
    requires StrictlySorted(ks)
    ensures Distinct(ks)
  {
    forall i, j | 0 <= i < j < |ks|
      ensures ks[i] != ks[j]
    {
      LessIrreflexive(ks[i]);
    }
  }

  /** Places `k` in an ascending sequence, unless it is already there. */
  function Insert(ks: seq<string>, k: string): (r: seq<string>)
    requires StrictlySorted(ks)
    ensures StrictlySorted(r)
    ensures forall x :: x in r <==> x in ks || x == k
  {
    if |ks| == 0 then [k]
    else if ks[0] == k then ks
    else if Less(k, ks[0]) then
      LessTransitiveAll(k, ks);
      [k] + ks
    else
      LessTotal(k, ks[0]);
      var tail := Insert(ks[1..], k);
      assert forall x :: x in tail ==> Less(ks[0], x);
      [ks[0]] + tail
  }

  lemma LessTransitiveAll(k: string, ks: seq<string>)
    requires StrictlySorted(ks) && |ks| > 0 && Less(k, ks[0])
    ensures forall j :: 0 <= j < |ks| ==> Less(k, ks[j])
  {
    forall j | 0 <= j < |ks|
      ensures Less(k, ks[j])
    {
      LessTransitive(k, ks[0], ks[j]);
    }
  }

  /** `sort.Strings`, by insertion in the order the strings are listed; a
      repeated string is kept once. */
  function Sort(ks: seq<string>): (r: seq<string>)
    ensures StrictlySorted(r)
    ensures forall x :: x in r <==> x in ks
  {
    if |ks| == 0 then []
    else Insert(Sort(ks[..|ks| - 1]), ks[|ks| - 1])
  }

  /** Two strictly ascending sequences with the same elements are equal:
      the sorted order does not depend on the order strings were listed in. */
  lemma {:induction false} SortedUnique(a: seq<string>, b: seq<string>)
    requires StrictlySorted(a) && StrictlySorted(b)
    requires forall x :: x in a <==> x in b
    ensures a == b
    decreases |a|
  {
    if |a| > 0 {
      assert a[0] in b;
    }
    if |b| > 0 {
      assert b[0] in a;
    }
    if |a| > 0 && |b| > 0 {
      assert a[0] in a && b[0] in b;
      if a[0] != b[0] {
        var i :| 0 <= i < |b| && b[i] == a[0];
        var j :| 0 <= j < |a| && a[j] == b[0];
        LessAsymmetric(a[0], b[0]);
        assert false;
      }
      assert a == [a[0]] + a[1..] && b == [b[0]] + b[1..];
      forall x
        ensures x in a[1..] <==> x in b[1..]
      {
        if x in a[1..] {
          var k :| 0 <= k < |a[1..]| && a[1..][k] == x;
          assert a[k + 1] == x;
          LessIrreflexive(x);
          assert x in b && x != b[0];
          var i :| 0 <= i < |b| && b[i] == x;
          assert b[1..][i - 1] == x;
        }
        if x in b[1..] {
          var k :| 0 <= k < |b[1..]| && b[1..][k] == x;
          assert b[k + 1] == x;
          LessIrreflexive(x);
          assert x in a && x != a[0];
          var i :| 0 <= i < |a| && a[i] == x;
          assert a[1..][i - 1] == x;
        }
      }
      SortedUnique(a[1..], b[1..]);
    }
  }

  /** Sorting a duplicate-free listing of a set of strings gives the one
      ascending arrangement of that set, whatever the listing's order. */
  lemma SortAnyOrder(listing: seq<string>, sorted: seq<string>)
    requires StrictlySorted(sorted)
    requires forall x :: x in listing <==> x in sorted
    ensures Sort(listing) == sorted
  {
    SortedUnique(Sort(listing), sorted);
  }
}

/**
  First-appearance deduplication.

  Three places of the generator keep "the distinct values seen so far, in the
  order they were first seen" by scanning a list and appending what is new:
  the tile catalogue (List.IndexOf then Add), the adjacency rules (a scan for
  an equal triple then Add) and the block palette of the image codec (a scan
  for an equal block then Add). FirstSeen is the one specification of all
  three; IndexOf stands for List<T>.IndexOf.
*/
module Dedup {

  /** No value occurs twice in `s`. */
  predicate Distinct<T(==)>(s: seq<T>) {
    forall i, j :: 0 <= i < j < |s| ==> s[i] != s[j]
  }

  /** The distinct values of `s`, in the order of their first occurrence. */
  function FirstSeen<T(==)>(s: seq<T>): seq<T> {
    if s == [] then []
    else
      var p := FirstSeen(s[..|s| - 1]);
      if s[|s| - 1] in p then p else p + [s[|s| - 1]]
  }

  /** The dedup list holds no value twice. */
  lemma {:induction false} FirstSeenDistinct<T>(s: seq<T>)
    ensures Distinct(FirstSeen(s))
  {
    if s != [] {
      FirstSeenDistinct(s[..|s| - 1]);
    }
  }

  /** Every value of the scanned sequence is in the dedup list. */
  lemma {:induction false} FirstSeenCovers<T>(s: seq<T>, v: T)
    requires v in s
    ensures v in FirstSeen(s)
  {
    var last := s[|s| - 1];
    if v != last {
      var k :| 0 <= k < |s| && s[k] == v;
      assert s[..|s| - 1][k] == v;
      FirstSeenCovers(s[..|s| - 1], v);
    }
  }

  /** Every value of the dedup list occurs in the scanned sequence. */
  lemma {:induction false} FirstSeenSubset<T>(s: seq<T>, v: T)
    requires v in FirstSeen(s)
    ensures v in s
  {
    if s != [] {
      var p := FirstSeen(s[..|s| - 1]);
      if v in p {
        FirstSeenSubset(s[..|s| - 1], v);
        var k :| 0 <= k < |s| - 1 && s[..|s| - 1][k] == v;
        assert s[k] == v;
      }
    }
  }

  /** Index of the first occurrence of `v` in `s`, or -1 (List<T>.IndexOf). */
  function IndexOf<T(==)>(s: seq<T>, v: T): (i: int)
    ensures -1 <= i < |s|
    ensures i == -1 <==> v !in s
    ensures 0 <= i ==> s[i] == v && v !in s[..i]
  {
    if s == [] then -1
    else if s[0] == v then 0
    else
      var j := IndexOf(s[1..], v);
      if j == -1 then -1 else j + 1
  }

  /** In a duplicate-free sequence the index of an element is its position. */
  lemma IndexOfDistinct<T>(s: seq<T>, i: nat)
    requires Distinct(s) && i < |s|
    ensures IndexOf(s, s[i]) == i
  {
  }

  /** Appending one element extends the dedup list by that element iff it is new. */
  lemma FirstSeenSnoc<T>(s: seq<T>, v: T)
    ensures FirstSeen(s + [v]) == if v in FirstSeen(s) then FirstSeen(s) else FirstSeen(s) + [v]
  {
    assert (s + [v])[..|s + [v]| - 1] == s;
  }

  /**
    First-appearance order: the dedup list of a prefix is a prefix of the dedup
    list of the whole sequence, so ids handed out while scanning never change.
  */
  lemma {:induction false} FirstSeenPrefix<T>(s: seq<T>, k: nat)
    requires k <= |s|
    ensures FirstSeen(s[..k]) <= FirstSeen(s)
    decreases |s| - k
  {
    if k < |s| {
      FirstSeenPrefix(s, k + 1);
      assert s[..k + 1] == s[..k] + [s[k]];
      FirstSeenSnoc(s[..k], s[k]);
    } else {
      assert s[..k] == s;
    }
  }

  /**
    A value that has not occurred before position k receives, as its position in
    the dedup list, the number of distinct values seen before it.
  */
  lemma NewValueGetsNextId<T>(s: seq<T>, k: nat)
    requires k < |s| && s[k] !in s[..k]
    ensures |FirstSeen(s[..k])| < |FirstSeen(s)|
    ensures FirstSeen(s)[|FirstSeen(s[..k])|] == s[k]
  {
    assert s[..k + 1] == s[..k] + [s[k]];
    if s[k] in FirstSeen(s[..k]) {
      FirstSeenSubset(s[..k], s[k]);
    }
    FirstSeenSnoc(s[..k], s[k]);
    FirstSeenPrefix(s, k + 1);
  }
}

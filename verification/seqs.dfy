/** Sequence helpers for pandas' `unique()` (distinct values in order of first
    occurrence) and Python's slice `[:k]`. */
module Seqs {

  predicate NoDuplicates<T(==)>(s: seq<T>) {
    forall i, j :: 0 <= i < j < |s| ==> s[i] != s[j]
  }

  /** The set of values a sequence holds. */
  function Elements<T>(s: seq<T>): set<T> {
    set x | x in s
  }

  /** The increasing positions `ps` of `s` spell `r`. */
  ghost predicate EmbedsAt<T>(ps: seq<nat>, r: seq<T>, s: seq<T>) {
    && |ps| == |r|
    && (forall k, l :: 0 <= k < l < |ps| ==> ps[k] < ps[l])
    && (forall k :: 0 <= k < |ps| ==> ps[k] < |s| && s[ps[k]] == r[k])
  }

  /** `r` is `s` with some elements left out and the rest in their order. */
  ghost predicate Embeds<T>(r: seq<T>, s: seq<T>) {
    exists ps: seq<nat> :: EmbedsAt(ps, r, s)
  }

  /** `s[:k]`: the first `k` elements, or all of them when there are fewer. */
  function Take<T>(s: seq<T>, k: nat): (r: seq<T>)
    ensures |r| == if k < |s| then k else |s|
    ensures forall i :: 0 <= i < |r| ==> r[i] == s[i]
  {
    if k < |s| then s[..k] else s
  }

  /** Position of the first occurrence of `x` in `s`. */
  function FirstIndex<T(==)>(s: seq<T>, x: T): (i: nat)
    requires x in s
    ensures i < |s| && s[i] == x && x !in s[..i]
  {
    if s[0] == x then 0
    else
      var i := FirstIndex(s[1..], x);
      assert s[..i + 1] == [s[0]] + s[1..][..i];
      i + 1
  }

  /** pandas' `unique()`: each distinct value once, in order of first occurrence. */
  function Unique<T(==)>(s: seq<T>): (u: seq<T>)
    ensures NoDuplicates(u)
    ensures Elements(u) == Elements(s)
    decreases |s|
  {
    if |s| == 0 then []
    else
      var u := Unique(s[..|s| - 1]);
      assert Elements(s) == Elements(s[..|s| - 1]) + {s[|s| - 1]} by {
        assert s == s[..|s| - 1] + [s[|s| - 1]];
      }
      if s[|s| - 1] in u then u else u + [s[|s| - 1]]
  }

  /** The distinct values of a prefix come first, in the same order, among those of the whole. */
  lemma {:induction false} UniquePrefix<T>(s: seq<T>, i: nat)
    requires i <= |s|
    ensures Unique(s[..i]) <= Unique(s)
    decreases |s| - i
  {
    if i < |s| {
      UniquePrefix(s, i + 1);
      assert s[..i + 1][..i] == s[..i];
    } else {
      assert s[..i] == s;
    }
  }

  /** A value seen for the first time at position `i` follows exactly the distinct values of `s[..i]`. */
  lemma UniqueFirstOccurrence<T>(s: seq<T>, i: nat)
    requires i < |s| && s[i] !in s[..i]
    ensures |Unique(s[..i])| < |Unique(s)|
    ensures Unique(s)[|Unique(s[..i])|] == s[i]
  {
    var t := s[..i + 1];
    assert t[..|t| - 1] == s[..i];
    assert t[|t| - 1] == s[i];
    assert s[i] !in Elements(s[..i]);
    assert Unique(t) == Unique(s[..i]) + [s[i]];
    UniquePrefix(s, i + 1);
  }

  /** A sequence without duplicates has as many elements as its set of values. */
  lemma {:induction false} DistinctCount<T>(s: seq<T>)
    requires NoDuplicates(s)
    ensures |Elements(s)| == |s|
    decreases |s|
  {
    if |s| > 0 {
      var t := s[..|s| - 1];
      DistinctCount(t);
      assert s == t + [s[|s| - 1]];
      assert Elements(s) == Elements(t) + {s[|s| - 1]};
    }
  }

  /** `Unique` keeps one entry per distinct value. */
  lemma UniqueCount<T>(s: seq<T>)
    ensures |Unique(s)| == |Elements(s)|
  {
    DistinctCount(Unique(s));
    assert Elements(Unique(s)) == Elements(s);
  }

  /** Position of a value inside a duplicate-free sequence is unique. */
  lemma NoDuplicatesIndex<T>(s: seq<T>, i: nat, x: T)
    requires NoDuplicates(s) && i < |s| && s[i] == x
    ensures forall j :: 0 <= j < |s| && s[j] == x ==> j == i
  {
  }

  /** Reference definition: `x` is among the first `k` distinct values of `s` when
      it occurs and fewer than `k` distinct values occur before it first does. */
  predicate AmongFirstDistinct<T(==)>(s: seq<T>, k: nat, x: T) {
    x in s && |Elements(s[..FirstIndex(s, x)])| < k
  }

  /** `unique()[:k]` holds exactly the values among the first `k` distinct ones. */
  lemma FirstDistinctMembership<T>(s: seq<T>, k: nat, x: T)
    ensures x in Take(Unique(s), k) <==> AmongFirstDistinct(s, k, x)
  {
    if x in s {
      var i := FirstIndex(s, x);
      var u := Unique(s);
      var p := |Unique(s[..i])|;
      UniqueFirstOccurrence(s, i);
      UniqueCount(s[..i]);
      NoDuplicatesIndex(u, p, x);
      var t := Take(u, k);
      if p < k {
        assert t[p] == x;
      } else {
        assert forall j :: 0 <= j < |t| ==> t[j] == u[j] && j != p;
      }
    } else {
      var t := Take(Unique(s), k);
      assert forall j :: 0 <= j < |t| ==> t[j] == Unique(s)[j] && t[j] in Elements(s);
    }
  }

  /** On a sequence without repeats `unique()` changes nothing. */
  lemma {:induction false} UniqueOfDistinct<T>(s: seq<T>)
    requires NoDuplicates(s)
    ensures Unique(s) == s
    decreases |s|
  {
    if |s| > 0 {
      var t := s[..|s| - 1];
      UniqueOfDistinct(t);
      assert s[|s| - 1] !in t;
      assert s == t + [s[|s| - 1]];
    }
  }

  /** What embeds in the tail of `s` embeds in `s`, also behind `s`' head. */
  lemma EmbedsInTail<T>(r: seq<T>, s: seq<T>)
    requires |s| > 0 && Embeds(r, s[1..])
    ensures Embeds(r, s) && Embeds([s[0]] + r, s)
  {
    var t := s[1..];
    var ps: seq<nat> :| EmbedsAt(ps, r, t);
    var qs: seq<nat> := seq(|ps|, k requires 0 <= k < |ps| => ps[k] + 1);
    assert forall k :: 0 <= k < |qs| ==> qs[k] == ps[k] + 1 && s[qs[k]] == t[ps[k]];
    assert EmbedsAt(qs, r, s);
    var zs: seq<nat> := [0] + qs;
    var y := [s[0]] + r;
    assert forall k :: 0 < k < |zs| ==> zs[k] == qs[k - 1] && y[k] == r[k - 1];
    assert EmbedsAt(zs, y, s);
  }
}

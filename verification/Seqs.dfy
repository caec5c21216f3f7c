/** Small collections vocabulary shared by the models. */
module Seqs {
  datatype Option<+T> = None | Some(value: T)

  function Min(a: int, b: int): int { if a <= b then a else b }

  ghost predicate Distinct<T(!new)>(s: seq<T>) { forall i, j :: 0 <= i < j < |s| ==> s[i] != s[j] }

  /** `list(dict.fromkeys(s))`: first occurrences, in order. */
  function Dedup<T(==,!new)>(s: seq<T>): (r: seq<T>)
    ensures forall x :: x in r <==> x in s
    decreases |s|
  {
    if s == [] then []
    else
      var front := s[..|s| - 1];
      var last := s[|s| - 1];
      assert forall x :: x in s <==> x in front || x == last;
      if last in front then Dedup(front) else Dedup(front) + [last]
  }

  lemma {:induction false} DedupIsDistinct<T(!new)>(s: seq<T>)
    ensures Distinct(Dedup(s))
    decreases |s|
  {
    if s != [] { DedupIsDistinct(s[..|s| - 1]); }
  }

  /** Where a member first stands in a list. */
  function Place<T(==,!new)>(s: seq<T>, x: T): (i: nat)
    requires x in s
    ensures i < |s| && s[i] == x && x !in s[..i]
  {
    var n := |s| - 1;
    if x in s[..n] then
      var i := Place(s[..n], x);
      assert s[..n][..i] == s[..i];
      i
    else n
  }

  /** What comes first in the list comes first without its repeats. */
  lemma {:induction false} DedupKeepsOrder<T(!new)>(s: seq<T>, x: T, y: T)
    requires x in s && y in s
    ensures Place(Dedup(s), x) < Place(Dedup(s), y) <==> Place(s, x) < Place(s, y)
    decreases |s|
  {
    var front, last := s[..|s| - 1], s[|s| - 1];
    if x in front && y in front { DedupKeepsOrder(front, x, y); }
    if last !in front { assert Dedup(s)[..|Dedup(front)|] == Dedup(front); }
  }

  function ToSet<T>(s: seq<T>): set<T> { set x | x in s }

  /** A duplicate-free sequence is as long as its set of elements. */
  lemma {:induction false} DistinctCardinality<T(!new)>(s: seq<T>)
    requires Distinct(s)
    ensures |ToSet(s)| == |s|
    decreases |s|
  {
    if s != [] {
      var front, last := s[..|s| - 1], s[|s| - 1];
      DistinctCardinality(front);
      assert ToSet(s) == ToSet(front) + {last};
    }
  }

  lemma SubsetCardinality<T>(a: set<T>, b: set<T>)
    requires a <= b
    ensures |a| <= |b|
  {
    assert b == a + (b - a);
  }

  lemma {:induction false} SetOfSeq<T(!new)>(s: seq<T>)
    ensures |ToSet(s)| <= |s|
    decreases |s|
  {
    if s != [] {
      var front, last := s[..|s| - 1], s[|s| - 1];
      SetOfSeq(front);
      assert ToSet(s) == ToSet(front) + {last};
    }
  }

  lemma NonEmptyToSet<T(!new)>(s: seq<T>)
    requires s != []
    ensures ToSet(s) != {}
  {
    assert s[0] in ToSet(s);
  }

  lemma NoMembers<T(!new)>(s: seq<T>)
    requires forall x :: x !in s
    ensures s == []
  {
    assert ToSet(s) == {};
    if s != [] { NonEmptyToSet(s); }
  }

  /** `s` without its `i`th element. */
  function Without<T>(s: seq<T>, i: nat): (r: seq<T>)
    requires i < |s|
    ensures |r| == |s| - 1
  {
    s[..i] + s[i + 1..]
  }

  lemma WithoutLater<T>(s: seq<T>, i: nat)
    requires 0 < i < |s|
    ensures Without(s, i) == [s[0]] + Without(s[1..], i - 1)
  {
    assert s[..i] == [s[0]] + s[1..][..i - 1];
    assert s[i + 1..] == s[1..][i..];
  }

  lemma ConcatThree<T>(a: seq<T>, b: seq<T>, c: seq<T>)
    ensures a + b + c == a + (b + c)
  {
  }
}

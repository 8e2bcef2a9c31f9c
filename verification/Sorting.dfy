/** A stable sort, and what any such sort keeps. */
module Sorting {

  predicate Sorted<T>(s: seq<T>, le: (T, T) -> bool) {
    forall i, j :: 0 <= i < j < |s| ==> le(s[i], s[j])
  }

  ghost predicate TotalPreorder<T(!new)>(le: (T, T) -> bool) {
    && (forall a, b :: le(a, b) || le(b, a))
    && (forall a, b, c :: le(a, b) && le(b, c) ==> le(a, c))
  }

  /** Puts `x` before the first element it does not exceed. */
  function Insert<T>(x: T, s: seq<T>, le: (T, T) -> bool): seq<T> {
    if s == [] || le(x, s[0]) then [x] + s else [s[0]] + Insert(x, s[1..], le)
  }

  function Sort<T>(s: seq<T>, le: (T, T) -> bool): seq<T> {
    if s == [] then [] else Insert(s[0], Sort(s[1..], le), le)
  }

  lemma {:induction false} InsertKeeps<T(!new)>(x: T, s: seq<T>, le: (T, T) -> bool)
    ensures |Insert(x, s, le)| == |s| + 1
    ensures forall y :: y in Insert(x, s, le) <==> y == x || y in s
    ensures TotalPreorder(le) && Sorted(s, le) ==> Sorted(Insert(x, s, le), le)
  {
    if !(s == [] || le(x, s[0])) {
      InsertKeeps(x, s[1..], le);
      assert s == [s[0]] + s[1..];
      var rest := Insert(x, s[1..], le);
      if TotalPreorder(le) && Sorted(s, le) {
        assert forall y :: y in rest ==> le(s[0], y);
        assert forall i :: 0 <= i < |rest| ==> rest[i] in rest;
      }
    } else if s != [] && TotalPreorder(le) && Sorted(s, le) {
      assert forall i :: 0 <= i < |s| ==> le(x, s[i]);
    }
  }

  lemma {:induction false} SortKeeps<T(!new)>(s: seq<T>, le: (T, T) -> bool)
    requires TotalPreorder(le)
    ensures |Sort(s, le)| == |s| && Sorted(Sort(s, le), le)
    ensures forall y :: y in Sort(s, le) <==> y in s
  {
    if s != [] {
      SortKeeps(s[1..], le);
      InsertKeeps(s[0], Sort(s[1..], le), le);
      assert s == [s[0]] + s[1..];
    }
  }

  lemma {:induction false} InsertAdds<T>(x: T, s: seq<T>, le: (T, T) -> bool)
    ensures multiset(Insert(x, s, le)) == multiset(s) + multiset{x}
  {
    if !(s == [] || le(x, s[0])) {
      InsertAdds(x, s[1..], le);
      assert s == [s[0]] + s[1..];
    }
  }

  /** Sorting is a permutation. */
  lemma {:induction false} SortPermutes<T>(s: seq<T>, le: (T, T) -> bool)
    ensures multiset(Sort(s, le)) == multiset(s)
  {
    if s != [] {
      SortPermutes(s[1..], le);
      InsertAdds(s[0], Sort(s[1..], le), le);
      assert s == [s[0]] + s[1..];
    }
  }

  // ---- Pairwise relations ----

  ghost predicate ToAll<T(!new)>(x: T, s: seq<T>, rel: (T, T) -> bool) {
    forall y :: y in s ==> rel(x, y)
  }

  /** Every two entries are related, whatever their order. */
  ghost predicate Pairwise<T(!new)>(s: seq<T>, rel: (T, T) -> bool) {
    s != [] ==> ToAll(s[0], s[1..], rel) && Pairwise(s[1..], rel)
  }

  ghost predicate Symmetric<T(!new)>(rel: (T, T) -> bool) {
    forall a, b :: rel(a, b) <==> rel(b, a)
  }

  lemma {:induction false} InsertPairwise<T(!new)>(x: T, s: seq<T>, le: (T, T) -> bool, rel: (T, T) -> bool)
    requires Symmetric(rel)
    ensures Pairwise(Insert(x, s, le), rel) <==> Pairwise([x] + s, rel)
  {
    assert ([x] + s)[1..] == s;
    if !(s == [] || le(x, s[0])) {
      InsertPairwise(x, s[1..], le, rel);
      InsertKeeps(x, s[1..], le);
      var rest := Insert(x, s[1..], le);
      assert ([s[0]] + rest)[1..] == rest;
      assert ([x] + s[1..])[1..] == s[1..];
      assert s == [s[0]] + s[1..];
      assert ToAll(s[0], rest, rel) <==> rel(x, s[0]) && ToAll(s[0], s[1..], rel) by {
        assert x in rest;
      }
      assert ToAll(x, s, rel) <==> rel(x, s[0]) && ToAll(x, s[1..], rel) by {
        assert s[0] in s;
      }
    }
  }

  /** A symmetric relation holds pairwise after sorting exactly when it did before. */
  lemma {:induction false} SortPairwise<T(!new)>(s: seq<T>, le: (T, T) -> bool, rel: (T, T) -> bool)
    requires TotalPreorder(le) && Symmetric(rel)
    ensures Pairwise(Sort(s, le), rel) <==> Pairwise(s, rel)
  {
    if s != [] {
      SortPairwise(s[1..], le, rel);
      SortKeeps(s[1..], le);
      var rest := Sort(s[1..], le);
      InsertPairwise(s[0], rest, le, rel);
      assert ([s[0]] + rest)[1..] == rest;
    }
  }

  lemma {:induction false} PairwiseAt<T(!new)>(s: seq<T>, rel: (T, T) -> bool, i: nat, j: nat)
    requires Pairwise(s, rel) && i < j < |s|
    ensures rel(s[i], s[j])
  {
    if i == 0 {
      assert s[1..][j - 1] == s[j];
    } else {
      PairwiseAt(s[1..], rel, i - 1, j - 1);
    }
  }

  lemma {:induction false} PairwiseFromAt<T(!new)>(s: seq<T>, rel: (T, T) -> bool)
    requires forall i, j :: 0 <= i < j < |s| ==> rel(s[i], s[j])
    ensures Pairwise(s, rel)
  {
    if s != [] {
      forall y | y in s[1..]
        ensures rel(s[0], y)
      {
        var j :| 0 <= j < |s[1..]| && s[1..][j] == y;
        assert s[j + 1] == y;
      }
      PairwiseFromAt(s[1..], rel);
    }
  }

  lemma PairwiseMembers<T(!new)>(s: seq<T>, rel: (T, T) -> bool, x: T, y: T)
    requires Pairwise(s, rel) && Symmetric(rel) && x in s && y in s && x != y
    ensures rel(x, y)
  {
    var i :| 0 <= i < |s| && s[i] == x;
    var j :| 0 <= j < |s| && s[j] == y;
    if i < j {
      PairwiseAt(s, rel, i, j);
    } else {
      PairwiseAt(s, rel, j, i);
    }
  }

  lemma {:induction false} PairwiseAppend<T(!new)>(a: seq<T>, b: seq<T>, rel: (T, T) -> bool)
    requires Pairwise(a, rel) && Pairwise(b, rel) && forall x, y :: x in a && y in b ==> rel(x, y)
    ensures Pairwise(a + b, rel)
  {
    if a == [] {
      assert a + b == b;
    } else {
      assert (a + b)[1..] == a[1..] + b && (a + b)[0] == a[0];
      assert forall x :: x in a[1..] ==> x in a;
      PairwiseAppend(a[1..], b, rel);
      assert a[0] in a;
    }
  }

  lemma PairwiseSplit<T(!new)>(front: seq<T>, last: T, rel: (T, T) -> bool)
    requires Pairwise(front + [last], rel)
    ensures Pairwise(front, rel)
    ensures forall x :: x in front ==> rel(x, last)
  {
    var s := front + [last];
    forall i, j | 0 <= i < j < |front|
      ensures rel(front[i], front[j])
    {
      PairwiseAt(s, rel, i, j);
    }
    PairwiseFromAt(front, rel);
    forall x | x in front
      ensures rel(x, last)
    {
      var i :| 0 <= i < |front| && front[i] == x;
      PairwiseAt(s, rel, i, |front|);
    }
  }

  lemma SortedCons<T(!new)>(x: T, s: seq<T>, le: (T, T) -> bool)
    requires Sorted(s, le) && forall y :: y in s ==> le(x, y)
    ensures Sorted([x] + s, le)
  {
    assert forall i :: 0 <= i < |s| ==> s[i] in s;
  }

  lemma SortedTail<T(!new)>(s: seq<T>, le: (T, T) -> bool)
    requires s != [] && Sorted(s, le)
    ensures Sorted(s[1..], le)
    ensures forall y :: y in s[1..] ==> y in s && le(s[0], y)
  {
    forall y | y in s[1..]
      ensures y in s && le(s[0], y)
    {
      var i :| 0 <= i < |s[1..]| && s[1..][i] == y;
      assert s[i + 1] == y;
    }
  }
}

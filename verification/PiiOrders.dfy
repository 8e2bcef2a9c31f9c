/**
 A hash map lists its types in an order no caller controls. Which maps are masked whatever
 that order is, in terms of the map alone.
 */
module PiiOrders {
  import opened Sorting
  import opened PiiSpans
  import opened PiiMasking

  /** Every span lies in the text and no two overlap, within a type or across types. */
  ghost predicate MapValid(text: Utf8, m: Detections) {
    && (forall k :: k in m ==> AllInText(text, m[k]) && Pairwise(m[k], Disjoint))
    && (forall k, l, a, b :: k in m && l in m && k != l && a in m[k] && b in m[l] ==> Disjoint(a, b))
  }

  /** `a` is a non-empty span and `b` an empty one at its start. */
  predicate EmptyBeside(a: Span, b: Span) {
    a.start == b.start == b.end && a.start < a.end
  }

  /** Some list holds a span after a non-empty one with the same start, or two types hold such a pair. */
  ghost predicate MapClashes(m: Detections) {
    || (exists k :: k in m && Clashes(m[k]))
    || (exists k, l, a, b :: k in m && l in m && k != l && a in m[k] && b in m[l] && EmptyBeside(a, b))
  }

  // ---- Two lists put together ----

  lemma PairwiseConcat(a: seq<Span>, b: seq<Span>)
    ensures Pairwise(a + b, Disjoint) <==>
              && Pairwise(a, Disjoint) && Pairwise(b, Disjoint)
              && forall x, y :: x in a && y in b ==> Disjoint(x, y)
  {
    var s := a + b;
    if Pairwise(s, Disjoint) {
      forall i, j | 0 <= i < j < |a|
        ensures Disjoint(a[i], a[j])
      {
        PairwiseAt(s, Disjoint, i, j);
      }
      PairwiseFromAt(a, Disjoint);
      forall i, j | 0 <= i < j < |b|
        ensures Disjoint(b[i], b[j])
      {
        PairwiseAt(s, Disjoint, |a| + i, |a| + j);
      }
      PairwiseFromAt(b, Disjoint);
      forall x, y | x in a && y in b
        ensures Disjoint(x, y)
      {
        var i :| 0 <= i < |a| && a[i] == x;
        var j :| 0 <= j < |b| && b[j] == y;
        PairwiseAt(s, Disjoint, i, |a| + j);
      }
    } else if Pairwise(a, Disjoint) && Pairwise(b, Disjoint) && forall x, y :: x in a && y in b ==> Disjoint(x, y) {
      PairwiseAppend(a, b, Disjoint);
    }
  }

  predicate StartTogether(x: Span, y: Span) {
    x.start == y.start && x.start < x.end
  }

  lemma ClashesConcat(a: seq<Span>, b: seq<Span>)
    ensures Clashes(a + b) <==> Clashes(a) || Clashes(b) || exists x, y :: x in a && y in b && StartTogether(x, y)
  {
    var s, n := a + b, |a|;
    if i, j :| 0 <= i < j < |s| && s[i].start == s[j].start && s[i].start < s[i].end {
      if i < n <= j {
        assert s[i] in a && b[j - n] in b && StartTogether(s[i], b[j - n]);
      } else if n <= i {
        assert b[i - n] == s[i] && b[j - n] == s[j];
      }
    }
    if i, j :| 0 <= i < j < |a| && a[i].start == a[j].start && a[i].start < a[i].end {
      assert s[i] == a[i] && s[j] == a[j];
    }
    if i, j :| 0 <= i < j < |b| && b[i].start == b[j].start && b[i].start < b[i].end {
      assert s[n + i] == b[i] && s[n + j] == b[j];
    }
    if x, y :| x in a && y in b && StartTogether(x, y) {
      var i :| 0 <= i < |a| && a[i] == x;
      var j :| 0 <= j < |b| && b[j] == y;
      assert s[i] == x && s[n + j] == y;
    }
  }

  // ---- The lists of a map put together ----

  ghost predicate InMap(m: Detections, order: seq<PiiType>) {
    forall i :: 0 <= i < |order| ==> order[i] in m
  }

  lemma {:induction false} ListedIff(m: Detections, order: seq<PiiType>, x: Span)
    requires InMap(m, order)
    ensures x in Listed(m, order) <==> exists i :: 0 <= i < |order| && x in m[order[i]]
  {
    if order != [] {
      var n := |order| - 1;
      ListedIff(m, order[..n], x);
      if x in Listed(m, order[..n]) {
        var i :| 0 <= i < n && x in m[order[..n][i]];
        assert order[i] == order[..n][i];
      }
      if i :| 0 <= i < |order| && x in m[order[i]] && i < n {
        assert order[..n][i] == order[i];
      }
    }
  }

  /** The listed types are valid together. */
  ghost predicate Apart(text: Utf8, m: Detections, order: seq<PiiType>)
    requires InMap(m, order)
  {
    && (forall i :: 0 <= i < |order| ==> AllInText(text, m[order[i]]) && Pairwise(m[order[i]], Disjoint))
    && (forall i, j, a, b :: 0 <= i < j < |order| && a in m[order[i]] && b in m[order[j]] ==> Disjoint(a, b))
  }

  lemma ApartStep(text: Utf8, m: Detections, order: seq<PiiType>, n: nat)
    requires |order| == n + 1 && InMap(m, order)
    ensures InMap(m, order[..n])
    ensures Apart(text, m, order) <==>
              && Apart(text, m, order[..n])
              && AllInText(text, m[order[n]]) && Pairwise(m[order[n]], Disjoint)
              && forall x, y :: x in Listed(m, order[..n]) && y in m[order[n]] ==> Disjoint(x, y)
  {
    var earlier := order[..n];
    assert forall i :: 0 <= i < n ==> earlier[i] == order[i];
    if Apart(text, m, order) {
      forall x, y | x in Listed(m, earlier) && y in m[order[n]]
        ensures Disjoint(x, y)
      {
        ListedIff(m, earlier, x);
        var i :| 0 <= i < n && x in m[earlier[i]];
        assert x in m[order[i]];
      }
    }
    if forall x, y :: x in Listed(m, earlier) && y in m[order[n]] ==> Disjoint(x, y) {
      forall i, x, y | 0 <= i < n && x in m[order[i]] && y in m[order[n]]
        ensures Disjoint(x, y)
      {
        assert x in m[earlier[i]];
        ListedIff(m, earlier, x);
      }
    }
  }

  lemma {:induction false} ListedApart(text: Utf8, m: Detections, order: seq<PiiType>)
    requires InMap(m, order)
    ensures AllInText(text, Listed(m, order)) && Pairwise(Listed(m, order), Disjoint) <==> Apart(text, m, order)
  {
    hide Pairwise, Apart, InText, Disjoint;
    if order == [] {
      PairwiseFromAt([], Disjoint);
      NothingApart(text, m);
    } else {
      var n := |order| - 1;
      ApartStep(text, m, order, n);
      ListedApart(text, m, order[..n]);
      PairwiseConcat(Listed(m, order[..n]), m[order[n]]);
    }
  }

  lemma NothingApart(text: Utf8, m: Detections)
    ensures Apart(text, m, [])
  {
  }

  /** Validation does not depend on the order of types. */
  lemma ValidWhateverOrder(text: Utf8, m: Detections, all: seq<Span>, order: seq<PiiType>)
    requires Enumerates(all, m, order)
    ensures AllInText(text, all) && Pairwise(all, Disjoint) <==> MapValid(text, m)
  {
    hide Pairwise, InText, Disjoint;
    ListedApart(text, m, order);
    DisjointEitherWay();
    if MapValid(text, m) {
      assert forall i :: 0 <= i < |order| ==> order[i] in m;
    }
    if Apart(text, m, order) {
      forall k | k in m
        ensures AllInText(text, m[k]) && Pairwise(m[k], Disjoint)
      {
        var i :| 0 <= i < |order| && order[i] == k;
      }
      forall k, l, a, b | k in m && l in m && k != l && a in m[k] && b in m[l]
        ensures Disjoint(a, b)
      {
        var i :| 0 <= i < |order| && order[i] == k;
        var j :| 0 <= j < |order| && order[j] == l;
      }
    }
  }

  lemma DisjointEitherWay()
    ensures forall a, b :: Disjoint(a, b) <==> Disjoint(b, a)
  {
  }

  /** Clashes of the listed types: within one, or from one to a later one. */
  ghost predicate ListClash(m: Detections, order: seq<PiiType>)
    requires InMap(m, order)
  {
    || (exists i :: 0 <= i < |order| && Clashes(m[order[i]]))
    || (exists i, j, x, y :: 0 <= i < j < |order| && x in m[order[i]] && y in m[order[j]] && StartTogether(x, y))
  }

  lemma ListClashStep(m: Detections, order: seq<PiiType>, n: nat)
    requires |order| == n + 1 && InMap(m, order)
    ensures InMap(m, order[..n])
    ensures ListClash(m, order) <==>
              || ListClash(m, order[..n]) || Clashes(m[order[n]])
              || exists x, y :: x in Listed(m, order[..n]) && y in m[order[n]] && StartTogether(x, y)
  {
    hide Clashes, StartTogether;
    var earlier := order[..n];
    assert forall i :: 0 <= i < n ==> earlier[i] == order[i];
    if i, j, x, y :| 0 <= i < j < |order| && x in m[order[i]] && y in m[order[j]] && StartTogether(x, y) {
      if j == n {
        assert x in m[earlier[i]];
        ListedIff(m, earlier, x);
      } else {
        assert x in m[earlier[i]] && y in m[earlier[j]];
      }
    }
    if i :| 0 <= i < |order| && Clashes(m[order[i]]) && i < n {
      assert Clashes(m[earlier[i]]);
    }
    if x, y :| x in Listed(m, earlier) && y in m[order[n]] && StartTogether(x, y) {
      ListedIff(m, earlier, x);
      var i :| 0 <= i < n && x in m[earlier[i]];
      assert x in m[order[i]];
    }
  }

  lemma {:induction false} ListedClashes(m: Detections, order: seq<PiiType>)
    requires InMap(m, order)
    ensures Clashes(Listed(m, order)) <==> ListClash(m, order)
  {
    hide Clashes, ListClash, StartTogether;
    if order == [] {
      NothingClashes(m);
    } else {
      var n := |order| - 1;
      ListClashStep(m, order, n);
      ListedClashes(m, order[..n]);
      ClashesConcat(Listed(m, order[..n]), m[order[n]]);
    }
  }

  lemma NothingClashes(m: Detections)
    ensures !Clashes([]) && !ListClash(m, [])
  {
  }

  // ---- The orders a map may have ----

  lemma {:induction false} SomeOrder(kinds: set<PiiType>) returns (order: seq<PiiType>)
    ensures forall k :: k in kinds <==> k in order
    ensures forall i, j :: 0 <= i < j < |order| ==> order[i] != order[j]
  {
    if kinds == {} {
      order := [];
    } else {
      var k :| k in kinds;
      var rest := SomeOrder(kinds - {k});
      order := rest + [k];
    }
  }

  /** A clash in the map is a clash in some order. */
  lemma ClashingOrder(m: Detections) returns (order: seq<PiiType>)
    requires MapClashes(m)
    ensures Enumerates(Listed(m, order), m, order) && ListClash(m, order)
  {
    hide Clashes;
    if k :| k in m && Clashes(m[k]) {
      order := SomeOrder(m.Keys);
      var i :| 0 <= i < |order| && order[i] == k;
    } else {
      var k, l, a, b :| k in m && l in m && k != l && a in m[k] && b in m[l] && EmptyBeside(a, b);
      var rest := SomeOrder(m.Keys - {k, l});
      order := [k, l] + rest;
      assert a in m[order[0]] && b in m[order[1]] && StartTogether(a, b);
    }
  }

  lemma OrderClash(text: Utf8, m: Detections, order: seq<PiiType>)
    requires MapValid(text, m) && Enumerates(Listed(m, order), m, order) && ListClash(m, order)
    ensures MapClashes(m)
  {
    hide Clashes, Pairwise;
    if i :| 0 <= i < |order| && Clashes(m[order[i]]) {
      assert order[i] in m;
    } else {
      var i, j, x, y :| 0 <= i < j < |order| && x in m[order[i]] && y in m[order[j]] && StartTogether(x, y);
      assert order[i] in m && order[j] in m && order[i] != order[j];
      assert y in m[order[j]] && InText(text, y);
      assert Disjoint(x, y) && EmptyBeside(x, y);
    }
  }

  /**
   Some order of the types makes masking fault exactly when the map passes validation and holds a
   span after a non-empty one with the same start, or a non-empty and an empty span of two types
   with the same start.
   */
  lemma MapFaultsIff(text: Utf8, m: Detections)
    ensures (exists all, order :: Enumerates(all, m, order) && MaskOf(text, all).SliceFault?)
       <==> MapValid(text, m) && MapClashes(m)
  {
    hide MapValid, MapClashes, ListClash, Clashes, Pairwise, MaskOf;
    if all, order :| Enumerates(all, m, order) && MaskOf(text, all).SliceFault? {
      FaultIff(text, all);
      ValidWhateverOrder(text, m, all, order);
      assert InMap(m, order);
      ListedClashes(m, order);
      OrderClash(text, m, order);
    }
    if MapValid(text, m) && MapClashes(m) {
      var order := ClashingOrder(m);
      var all := Listed(m, order);
      assert InMap(m, order);
      ListedClashes(m, order);
      ValidWhateverOrder(text, m, all, order);
      FaultIff(text, all);
    }
  }
}

/**
 How much of the candidates the selection covers. A candidate that starts inside a selected span
 is dropped whole, so what it holds beyond that span may be left as it was.
 */
module PiiCoverage {
  import opened PiiSpans

  predicate Holds(s: Span, b: nat) {
    s.start <= b < s.end
  }

  ghost predicate ByteCovered(ks: seq<Span>, b: nat) {
    exists k :: k in ks && Holds(k, b)
  }

  /** Every byte of every candidate lies in a selected span. */
  ghost predicate AllCovered(ks: seq<Span>, cs: seq<Span>) {
    forall c, b :: c in cs && Holds(c, b) ==> ByteCovered(ks, b)
  }

  /** `c` reaches across the end of `k`. */
  predicate Crosses(c: Span, k: Span) {
    c.start < k.end < c.end
  }

  ghost predicate StartsAnother(cs: seq<Span>, b: nat) {
    exists e :: e in cs && e.start == b < e.end
  }

  /** Wherever a candidate crosses the end of a selected span, another candidate starts. */
  ghost predicate NoTail(ks: seq<Span>, cs: seq<Span>) {
    forall c, k :: c in cs && k in ks && Crosses(c, k) ==> StartsAnother(cs, k.end)
  }

  lemma Follows(ks: seq<Span>, k: Span, l: Span, b: nat)
    requires Ordered(ks) && k in ks && l in ks && k.start <= k.end <= b && Holds(l, b)
    ensures k.end <= l.start
  {
    var i :| 0 <= i < |ks| && ks[i] == k;
    var j :| 0 <= j < |ks| && ks[j] == l;
    assert i < j || j < i;
  }

  /** A candidate that starts where a selected span ends is taken, or something as early and as long is. */
  lemma NextTaken(ks: seq<Span>, cs: seq<Span>, k: Span) returns (l: Span)
    requires LeftmostLongest(ks, cs) && Proper(cs) && k in ks && StartsAnother(cs, k.end)
    ensures l in ks && l.start == k.end < l.end
  {
    var e :| e in cs && e.start == k.end < e.end;
    if e in ks {
      l := e;
    } else {
      l :| l in ks && StartsInside(e, l);
      Follows(ks, k, l, k.end);
    }
  }

  /** From the end of a selected span on, the bytes of a candidate that crosses it are covered. */
  lemma {:induction false} TailCovered(ks: seq<Span>, cs: seq<Span>, c: Span, k: Span, b: nat)
    requires LeftmostLongest(ks, cs) && Proper(cs) && NoTail(ks, cs)
    requires c in cs && k in ks && Crosses(c, k) && k.end <= b < c.end
    ensures ByteCovered(ks, b)
    decreases c.end - k.end
  {
    var l := NextTaken(ks, cs, k);
    if b < l.end {
      assert Holds(l, b);
    } else {
      TailCovered(ks, cs, c, l, b);
    }
  }

  /**
   A leftmost-longest selection covers every byte of every candidate exactly when no candidate
   crosses the end of a selected span unless another candidate starts there.
   */
  lemma CoveredIff(ks: seq<Span>, cs: seq<Span>)
    requires LeftmostLongest(ks, cs) && Proper(cs)
    ensures AllCovered(ks, cs) <==> NoTail(ks, cs)
  {
    if NoTail(ks, cs) {
      forall c, b: nat | c in cs && Holds(c, b)
        ensures ByteCovered(ks, b)
      {
        if c !in ks {
          var k :| k in ks && StartsInside(c, k);
          if b >= k.end {
            TailCovered(ks, cs, c, k, b);
          } else {
            assert Holds(k, b);
          }
        }
      }
    }
    if AllCovered(ks, cs) {
      forall c, k | c in cs && k in ks && Crosses(c, k)
        ensures StartsAnother(cs, k.end)
      {
        assert Holds(c, k.end);
        var l :| l in ks && Holds(l, k.end);
        Follows(ks, k, l, k.end);
      }
    }
  }

  /** In particular of what the detector selects. */
  lemma SelectionCoversIff(cs: seq<Span>)
    requires Proper(cs)
    ensures AllCovered(Select(cs), cs) <==> NoTail(Select(cs), cs)
  {
    SelectIsLeftmostLongest(cs);
    CoveredIff(Select(cs), cs);
  }

  /** A candidate that starts before all others is taken. */
  lemma FirstKept(ks: seq<Span>, cs: seq<Span>, a: Span)
    requires LeftmostLongest(ks, cs) && a in cs && forall c :: c in cs && c != a ==> a.start < c.start
    ensures a in ks
  {
  }

  /** Two candidates that overlap, with nothing starting where the first ends: the tail of the second stays. */
  lemma TailLeft(a: Span, b: Span)
    requires a.start == 0 && a.end == 5 && b.start == 3 && b.end == 10
    ensures !AllCovered(Select([a, b]), [a, b])
  {
    var cs := [a, b];
    SelectIsLeftmostLongest(cs);
    var ks := Select(cs);
    assert a in cs && b in cs;
    FirstKept(ks, cs, a);
    assert Crosses(b, a) && !StartsAnother(cs, 5);
    CoveredIff(ks, cs);
  }
}

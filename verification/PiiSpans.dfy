/**
 From regex matches to detections: candidates are sorted leftmost first and longest first,
 then taken greedily, skipping those that start inside the span taken last.
 */
module PiiSpans {
  import opened Sorting

  newtype Byte = x: int | 0 <= x < 256

  type Utf8 = seq<Byte>

  datatype PiiType =
    | BankAccount | Bsn | CreditCard | Custom | DateOfBirth | DriverLicense
    | Email | IpAddress | MedicalRecord | Passport | Phone | Ssn

  /** A match in the text; `replacement` is what its masking strategy puts there. */
  datatype Span = Span(kind: PiiType, start: nat, end: nat, pattern: nat, replacement: Utf8)

  /** Position of the type's name in alphabetical order. */
  function NameRank(k: PiiType): nat {
    match k
    case BankAccount => 0
    case Bsn => 1
    case CreditCard => 2
    case Custom => 3
    case DateOfBirth => 4
    case DriverLicense => 5
    case Email => 6
    case IpAddress => 7
    case MedicalRecord => 8
    case Passport => 9
    case Phone => 10
    case Ssn => 11
  }

  /** The candidate order: start, then longest, then type name, then pattern. */
  predicate Precedes(a: Span, b: Span) {
    a.start < b.start ||
    (a.start == b.start &&
     (a.end > b.end ||
      (a.end == b.end &&
       (NameRank(a.kind) < NameRank(b.kind) ||
        (NameRank(a.kind) == NameRank(b.kind) && a.pattern <= b.pattern)))))
  }

  /** Takes, of candidates in order, those that start at or after the end of the last one taken. */
  function Greedy(cs: seq<Span>, lastEnd: nat): seq<Span> {
    if cs == [] then []
    else if cs[0].start < lastEnd then Greedy(cs[1..], lastEnd)
    else [cs[0]] + Greedy(cs[1..], cs[0].end)
  }

  function Select(cs: seq<Span>): seq<Span> {
    Greedy(Sort(cs, Precedes), 0)
  }

  ghost predicate Proper(cs: seq<Span>) {
    forall c :: c in cs ==> c.start <= c.end
  }

  /** In text order, none reaching into the next. */
  ghost predicate Ordered(ks: seq<Span>) {
    forall i, j :: 0 <= i < j < |ks| ==> ks[i].end <= ks[j].start
  }

  predicate StartsInside(c: Span, k: Span) {
    k.start <= c.start < k.end
  }

  ghost predicate Covered(c: Span, ks: seq<Span>) {
    exists k :: k in ks && StartsInside(c, k)
  }

  /** What leftmost-longest means, without reference to any procedure. */
  ghost predicate LeftmostLongest(ks: seq<Span>, cs: seq<Span>) {
    && Ordered(ks)
    && (forall k :: k in ks ==> k in cs)
    && (forall c :: c in cs ==> c in ks || Covered(c, ks))
    && (forall k, c :: k in ks && c in cs && c.start == k.start ==> c.end <= k.end)
  }

  lemma PrecedesIsOrder()
    ensures TotalPreorder(Precedes)
  {
  }

  lemma {:induction false} GreedyFacts(cs: seq<Span>, lastEnd: nat)
    requires Proper(cs) && Sorted(cs, Precedes)
    ensures Ordered(Greedy(cs, lastEnd))
    ensures forall k :: k in Greedy(cs, lastEnd) ==> k in cs && lastEnd <= k.start
    ensures forall c :: c in cs ==> c in Greedy(cs, lastEnd) || c.start < lastEnd || Covered(c, Greedy(cs, lastEnd))
    ensures forall k, c :: k in Greedy(cs, lastEnd) && c in cs && c.start == k.start && lastEnd <= c.start ==>
              c.end <= k.end
  {
    if cs != [] {
      var first, rest := cs[0], cs[1..];
      assert cs == [first] + rest;
      assert forall c :: c in rest ==> Precedes(first, c);
      if first.start < lastEnd {
        GreedyFacts(rest, lastEnd);
      } else {
        GreedyFacts(rest, first.end);
        GreedyTakes(first, rest, lastEnd);
      }
    }
  }

  /** Taking keeps the candidate order. */
  lemma {:induction false} GreedySorted(cs: seq<Span>, lastEnd: nat)
    requires Sorted(cs, Precedes)
    ensures Sorted(Greedy(cs, lastEnd), Precedes)
    ensures forall k :: k in Greedy(cs, lastEnd) ==> k in cs
  {
    hide Precedes, Sorted;
    if cs == [] {
      SortedNothing();
    } else {
      SortedTail(cs, Precedes);
      GreedySorted(cs[1..], lastEnd);
      GreedySorted(cs[1..], cs[0].end);
      SortedCons(cs[0], Greedy(cs[1..], cs[0].end), Precedes);
    }
  }

  lemma SortedNothing()
    ensures Sorted([], Precedes)
  {
  }

  lemma GreedyTakes(first: Span, rest: seq<Span>, lastEnd: nat)
    requires first.start <= first.end && lastEnd <= first.start
    requires forall c :: c in rest ==> Precedes(first, c)
    requires Ordered(Greedy(rest, first.end))
    requires forall k :: k in Greedy(rest, first.end) ==> k in rest && first.end <= k.start
    requires forall c :: c in rest ==>
               c in Greedy(rest, first.end) || c.start < first.end || Covered(c, Greedy(rest, first.end))
    ensures var taken := [first] + Greedy(rest, first.end);
            && Ordered(taken)
            && (forall c :: c in rest ==> c in taken || Covered(c, taken))
  {
    var tail := Greedy(rest, first.end);
    var taken := [first] + tail;
    forall i, j | 0 <= i < j < |taken|
      ensures taken[i].end <= taken[j].start
    {
      assert taken[j] == tail[j - 1] && tail[j - 1] in tail;
    }
    forall c | c in rest
      ensures c in taken || Covered(c, taken)
    {
      if c !in tail {
        if c.start < first.end {
          assert StartsInside(c, first) && first in taken;
        } else {
          var k :| k in tail && StartsInside(c, k);
          assert k in taken;
        }
      }
    }
  }

  /** The selection is leftmost-longest: ordered and disjoint, and every candidate dropped starts inside one kept. */
  lemma SelectIsLeftmostLongest(cs: seq<Span>)
    requires Proper(cs)
    ensures LeftmostLongest(Select(cs), cs)
  {
    PrecedesIsOrder();
    SortKeeps(cs, Precedes);
    GreedyFacts(Sort(cs, Precedes), 0);
  }

  /** An ordered list starts where the earliest candidate starts. */
  lemma FirstIsEarliest(ks: seq<Span>, cs: seq<Span>, c: Span)
    requires LeftmostLongest(ks, cs) && c in cs && Proper(cs)
    ensures ks != [] && ks[0].start <= c.start
  {
    if c in ks {
      var i :| 0 <= i < |ks| && ks[i] == c;
      if i > 0 {
        assert ks[0] in ks && ks[0].end <= ks[i].start;
      }
    } else {
      var k :| k in ks && StartsInside(c, k);
      var i :| 0 <= i < |ks| && ks[i] == k;
      if i > 0 {
        assert ks[0] in ks && ks[0].end <= ks[i].start;
      }
    }
  }

  /** The candidates from `from` on. */
  function From(cs: seq<Span>, from: nat): seq<Span> {
    if cs == [] then []
    else (if from <= cs[0].start then [cs[0]] else []) + From(cs[1..], from)
  }

  lemma {:induction false} FromMembers(cs: seq<Span>, from: nat)
    ensures forall c :: c in From(cs, from) <==> c in cs && from <= c.start
  {
    if cs != [] {
      FromMembers(cs[1..], from);
      assert cs == [cs[0]] + cs[1..];
    }
  }

  lemma TailMembers(ks: seq<Span>, cs: seq<Span>)
    requires LeftmostLongest(ks, cs) && ks != []
    ensures Ordered(ks[1..])
    ensures forall k :: k in ks[1..] ==> k in ks && ks[0].end <= k.start
    ensures forall k :: k in ks <==> k == ks[0] || k in ks[1..]
  {
    var rest := ks[1..];
    assert ks == [ks[0]] + rest;
    forall k | k in rest
      ensures k in ks && ks[0].end <= k.start
    {
      var i :| 0 <= i < |rest| && rest[i] == k;
      assert ks[i + 1] == k;
    }
  }

  lemma TailCovers(ks: seq<Span>, cs: seq<Span>, c: Span)
    requires LeftmostLongest(ks, cs) && ks != [] && c in cs && ks[0].start < ks[0].end <= c.start
    ensures c in ks[1..] || Covered(c, ks[1..])
  {
    TailMembers(ks, cs);
    if c !in ks {
      var k :| k in ks && StartsInside(c, k);
      assert k in ks[1..];
    }
  }

  /** Past its first span, a selection is one of the candidates past that span. */
  lemma TailSelects(ks: seq<Span>, cs: seq<Span>)
    requires LeftmostLongest(ks, cs) && ks != []
    requires forall c :: c in cs ==> c.start < c.end
    ensures LeftmostLongest(ks[1..], From(cs, ks[0].end))
  {
    hide From;
    FromMembers(cs, ks[0].end);
    TailMembers(ks, cs);
    assert ks[0] in ks;
    forall c | c in From(cs, ks[0].end)
      ensures c in ks[1..] || Covered(c, ks[1..])
    {
      TailCovers(ks, cs, c);
    }
  }

  function Range(k: Span): (nat, nat) {
    (k.start, k.end)
  }

  lemma FirstAgrees(a: seq<Span>, b: seq<Span>, cs: seq<Span>)
    requires forall c :: c in cs ==> c.start < c.end
    requires LeftmostLongest(a, cs) && LeftmostLongest(b, cs) && a != []
    ensures b != [] && Range(a[0]) == Range(b[0])
  {
    assert a[0] in a;
    FirstIsEarliest(b, cs, a[0]);
    assert b[0] in b;
    FirstIsEarliest(a, cs, b[0]);
  }

  lemma HasMember(b: seq<Span>)
    ensures b != [] ==> exists x :: x in b
  {
    if b != [] {
      assert b[0] in b;
    }
  }

  lemma NothingSelected(b: seq<Span>, cs: seq<Span>)
    requires LeftmostLongest([], cs) && LeftmostLongest(b, cs)
    ensures b == []
  {
    HasMember(b);
  }

  /** Leftmost-longest leaves no choice: for non-empty candidates it determines the spans. */
  lemma {:induction false} LeftmostLongestUnique(a: seq<Span>, b: seq<Span>, cs: seq<Span>)
    requires forall c :: c in cs ==> c.start < c.end
    requires LeftmostLongest(a, cs) && LeftmostLongest(b, cs)
    ensures |a| == |b| && forall i :: 0 <= i < |a| ==> Range(a[i]) == Range(b[i])
    decreases |a|
  {
    hide LeftmostLongest, From;
    if a == [] {
      NothingSelected(b, cs);
    } else {
      FirstAgrees(a, b, cs);
      TailSelects(a, cs);
      TailSelects(b, cs);
      FromMembers(cs, a[0].end);
      LeftmostLongestUnique(a[1..], b[1..], From(cs, a[0].end));
      forall i | 0 <= i < |a|
        ensures Range(a[i]) == Range(b[i])
      {
        if i > 0 {
          assert a[i] == a[1..][i - 1] && b[i] == b[1..][i - 1];
        }
      }
    }
  }

  // ---- Detections by type ----

  type Detections = map<PiiType, seq<Span>>

  function OfKind(ks: seq<Span>, kind: PiiType): seq<Span> {
    if ks == [] then []
    else OfKind(ks[..|ks| - 1], kind) + if ks[|ks| - 1].kind == kind then [ks[|ks| - 1]] else []
  }

  /** Each type that occurs, with its spans in text order. */
  ghost predicate Groups(m: Detections, ks: seq<Span>) {
    && (forall k :: k in m <==> OfKind(ks, k) != [])
    && (forall k :: k in m ==> m[k] == OfKind(ks, k))
  }

  /** `entry(kind).or_default().push(c)`. */
  function Push(m: Detections, c: Span): Detections {
    m[c.kind := (if c.kind in m then m[c.kind] else []) + [c]]
  }

  lemma PushGroups(m: Detections, ks: seq<Span>, c: Span)
    requires Groups(m, ks)
    ensures Groups(Push(m, c), ks + [c])
  {
    assert (ks + [c])[..|ks + [c]| - 1] == ks;
  }

  lemma GreedyStep(sorted: seq<Span>, i: nat, lastEnd: nat)
    requires i < |sorted|
    ensures Greedy(sorted[i..], lastEnd)
         == if sorted[i].start < lastEnd then Greedy(sorted[i + 1..], lastEnd)
            else [sorted[i]] + Greedy(sorted[i + 1..], sorted[i].end)
  {
    assert sorted[i..][1..] == sorted[i + 1..];
  }

  method CollectDetections(candidates: seq<Span>) returns (detections: Detections)
    ensures Groups(detections, Select(candidates))
  {
    hide Greedy, OfKind, Push, Groups;
    var sorted := Sort(candidates, Precedes);
    detections := map[];
    var lastEnd := 0;
    ghost var kept := [];
    assert sorted[0..] == sorted;
    GroupsNothing();
    for i := 0 to |sorted|
      invariant kept + Greedy(sorted[i..], lastEnd) == Select(candidates)
      invariant Groups(detections, kept)
    {
      var c := sorted[i];
      GreedyStep(sorted, i, lastEnd);
      if c.start >= lastEnd {
        lastEnd := c.end;
        PushGroups(detections, kept, c);
        detections := Push(detections, c);
        kept := kept + [c];
      }
    }
    GreedyNothing(lastEnd);
    assert sorted[|sorted|..] == [] && kept + [] == kept;
  }

  lemma GroupsNothing()
    ensures Groups(map[], [])
  {
  }

  lemma GreedyNothing(lastEnd: nat)
    ensures Greedy([], lastEnd) == []
  {
  }
}

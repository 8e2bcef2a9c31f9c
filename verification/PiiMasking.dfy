/**
 Masking: the detections of all types are validated, sorted by start and spliced into the
 text. Slicing at a bad offset stops the program, so the model's result has a case for it.
 */
module PiiMasking {
  import opened Outcomes
  import opened Sorting
  import opened PiiSpans

  /** What slicing accepts as an offset: the ends, and any byte that does not continue a scalar value. */
  predicate IsCharBoundary(text: Utf8, i: nat) {
    i == 0 || i == |text| || (i < |text| && !(0x80 <= text[i] < 0xC0))
  }

  predicate InText(text: Utf8, d: Span) {
    d.start <= d.end <= |text| && IsCharBoundary(text, d.start) && IsCharBoundary(text, d.end)
  }

  ghost predicate AllInText(text: Utf8, ds: seq<Span>) {
    forall d :: d in ds ==> InText(text, d)
  }

  predicate Disjoint(a: Span, b: Span) {
    a.end <= b.start || b.end <= a.start
  }

  // ---- Validation ----

  /** Pairs of offsets in lexicographic order. */
  predicate RangeLe(a: Span, b: Span) {
    a.start < b.start || (a.start == b.start && a.end <= b.end)
  }

  predicate StartLe(a: Span, b: Span) {
    a.start <= b.start
  }

  lemma OrdersAreTotal()
    ensures TotalPreorder(RangeLe) && TotalPreorder(StartLe) && Symmetric(Disjoint)
  {
  }

  /** Do neighbours in sorted order leave each other alone? */
  predicate NeighboursApart(s: seq<Span>) {
    forall i :: 0 <= i < |s| - 1 ==> s[i].end <= s[i + 1].start
  }

  method ValidateRanges(text: Utf8, ds: seq<Span>) returns (ok: bool)
    ensures ok <==> AllInText(text, ds) && Pairwise(ds, Disjoint)
  {
    var ranges := [];
    for i := 0 to |ds|
      invariant ranges == ds[..i] && AllInText(text, ds[..i])
    {
      assert ds[i] in ds;
      if ds[i].start > ds[i].end || ds[i].end > |text| {
        return false;
      }
      if !IsCharBoundary(text, ds[i].start) || !IsCharBoundary(text, ds[i].end) {
        return false;
      }
      ranges := ranges + [ds[i]];
    }
    assert ds[..|ds|] == ds;
    NeighboursDecide(text, ds);
    var sorted := Sort(ranges, RangeLe);
    for i := 0 to |sorted| - if |sorted| > 0 then 1 else 0
      invariant forall j :: 0 <= j < i ==> sorted[j].end <= sorted[j + 1].start
    {
      if sorted[i + 1].start < sorted[i].end {
        return false;
      }
    }
    ok := true;
  }

  lemma ApartIsDisjoint(s: seq<Span>)
    requires NeighboursApart(s) && forall k :: 0 <= k < |s| ==> s[k].start <= s[k].end
    ensures Pairwise(s, Disjoint)
  {
    forall i, j | 0 <= i < j < |s|
      ensures Disjoint(s[i], s[j])
    {
      ApartFurther(s, i, j);
    }
    PairwiseFromAt(s, Disjoint);
  }

  lemma DisjointIsApart(s: seq<Span>)
    requires Pairwise(s, Disjoint) && Sorted(s, RangeLe) && forall k :: 0 <= k < |s| ==> s[k].start <= s[k].end
    ensures NeighboursApart(s)
  {
    forall i | 0 <= i < |s| - 1
      ensures s[i].end <= s[i + 1].start
    {
      PairwiseAt(s, Disjoint, i, i + 1);
      assert RangeLe(s[i], s[i + 1]);
    }
  }

  /** Comparing neighbours in sorted order decides whether any two spans overlap. */
  lemma NeighboursDecide(text: Utf8, ds: seq<Span>)
    requires AllInText(text, ds)
    ensures NeighboursApart(Sort(ds, RangeLe)) <==> Pairwise(ds, Disjoint)
  {
    hide Sort, Pairwise, RangeLe, Disjoint, InText, NeighboursApart;
    var s := Sort(ds, RangeLe);
    OrdersAreTotal();
    SortKeeps(ds, RangeLe);
    SortPairwise(ds, RangeLe, Disjoint);
    forall k | 0 <= k < |s|
      ensures s[k].start <= s[k].end
    {
      assert s[k] in ds;
      InTextProper(text, s[k]);
    }
    if NeighboursApart(s) {
      ApartIsDisjoint(s);
    }
    if Pairwise(s, Disjoint) {
      DisjointIsApart(s);
    }
  }

  lemma InTextProper(text: Utf8, d: Span)
    requires InText(text, d)
    ensures d.start <= d.end <= |text|
  {
  }

  lemma {:induction false} ApartFurther(s: seq<Span>, i: nat, j: nat)
    requires NeighboursApart(s) && i < j < |s| && forall k :: 0 <= k < |s| ==> s[k].start <= s[k].end
    ensures s[i].end <= s[j].start
  {
    if i + 1 < j {
      ApartFurther(s, i, j - 1);
      assert s[j - 1].end <= s[j - 1 + 1].start;
    }
  }

  // ---- Splicing ----

  /**
   The text from `cursor` on with these spans replaced; `None` if a slice would run backwards or
   split a character.
   */
  function Spliced(text: Utf8, ds: seq<Span>, cursor: nat): Option<Utf8> {
    if ds == [] then (if cursor <= |text| then Some(text[cursor..]) else None)
    else if cursor <= ds[0].start && InText(text, ds[0]) then
      var rest := Spliced(text, ds[1..], ds[0].end);
      if rest.Some? then Some(text[cursor..ds[0].start] + ds[0].replacement + rest.value) else None
    else None
  }

  datatype MaskResult = Masked(text: Utf8) | Rejected | SliceFault

  /** Some enumeration of the map: its lists one after another, types in any order. */
  ghost predicate Enumerates(all: seq<Span>, m: Detections, order: seq<PiiType>) {
    && (forall i, j :: 0 <= i < j < |order| ==> order[i] != order[j])
    && (forall k :: k in m <==> k in order)
    && all == Listed(m, order)
  }

  function Listed(m: Detections, order: seq<PiiType>): seq<Span> {
    if order == [] then []
    else
      var k := order[|order| - 1];
      Listed(m, order[..|order| - 1]) + if k in m then m[k] else []
  }

  method Enumerate(m: Detections) returns (all: seq<Span>)
    ensures exists order :: Enumerates(all, m, order)
  {
    ghost var order: seq<PiiType> := [];
    all := [];
    var todo := m.Keys;
    while todo != {}
      invariant todo <= m.Keys
      invariant forall k :: k in m.Keys ==> (k in todo <==> k !in order)
      invariant forall k :: k in order ==> k in m
      invariant forall i, j :: 0 <= i < j < |order| ==> order[i] != order[j]
      invariant all == Listed(m, order)
      decreases todo
    {
      var k :| k in todo;
      all := all + m[k];
      assert (order + [k])[..|order|] == order;
      order := order + [k];
      todo := todo - {k};
    }
    assert Enumerates(all, m, order);
  }

  function Prepend(done: Utf8, rest: Option<Utf8>): Option<Utf8> {
    if rest.Some? then Some(done + rest.value) else None
  }

  lemma SplicedStep(text: Utf8, ds: seq<Span>, i: nat, done: Utf8, cursor: nat)
    requires i < |ds|
    ensures Prepend(done, Spliced(text, ds[i..], cursor))
         == if cursor <= ds[i].start && InText(text, ds[i])
            then Prepend(done + text[cursor..ds[i].start] + ds[i].replacement, Spliced(text, ds[i + 1..], ds[i].end))
            else None
  {
    assert ds[i..][1..] == ds[i + 1..];
    if cursor <= ds[i].start && InText(text, ds[i]) {
      var rest := Spliced(text, ds[i + 1..], ds[i].end);
      if rest.Some? {
        assert done + (text[cursor..ds[i].start] + ds[i].replacement + rest.value)
            == done + text[cursor..ds[i].start] + ds[i].replacement + rest.value;
      }
    }
  }

  /** The splicing loop; a slice that runs backwards faults. */
  method SpliceAll(text: Utf8, sorted: seq<Span>) returns (r: MaskResult)
    requires AllInText(text, sorted)
    ensures r == if Spliced(text, sorted, 0).Some? then Masked(Spliced(text, sorted, 0).value) else SliceFault
  {
    hide Spliced, InText;
    var result: Utf8, cursor: nat := [], 0;
    assert sorted[0..] == sorted;
    PrependNothing(Spliced(text, sorted, 0));
    for i := 0 to |sorted|
      invariant cursor <= |text|
      invariant Prepend(result, Spliced(text, sorted[i..], cursor)) == Spliced(text, sorted, 0)
    {
      assert sorted[i] in sorted;
      InTextProper(text, sorted[i]);
      SplicedStep(text, sorted, i, result, cursor);
      if sorted[i].start < cursor {
        return SliceFault;
      }
      result := result + text[cursor..sorted[i].start] + sorted[i].replacement;
      cursor := sorted[i].end;
    }
    SplicedEnd(text, cursor);
    assert sorted[|sorted|..] == [];
    r := Masked(result + text[cursor..]);
  }

  lemma PrependNothing(rest: Option<Utf8>)
    ensures Prepend([], rest) == rest
  {
    assert rest.Some? ==> [] + rest.value == rest.value;
  }

  lemma SplicedEnd(text: Utf8, cursor: nat)
    requires cursor <= |text|
    ensures Spliced(text, [], cursor) == Some(text[cursor..])
  {
  }

  /** Everything `MaskPii` decides, given the order in which the map yields its spans. */
  ghost function MaskOf(text: Utf8, all: seq<Span>): MaskResult {
    if !(AllInText(text, all) && Pairwise(all, Disjoint)) then Rejected
    else
      var spliced := Spliced(text, Sort(all, StartLe), 0);
      if spliced.Some? then Masked(spliced.value) else SliceFault
  }

  /** The map may yield its types in any order. */
  method MaskPii(text: Utf8, detections: Detections) returns (r: MaskResult)
    ensures exists all, order :: Enumerates(all, detections, order) && r == MaskOf(text, all)
  {
    var all := Enumerate(detections);
    if detections == map[] {
      MaskNothing(text);
      assert Enumerates([], detections, []);
      return Masked(text);
    }
    var ok := ValidateRanges(text, all);
    if !ok {
      return Rejected;
    }
    SortedInText(text, all);
    r := SpliceAll(text, Sort(all, StartLe));
  }

  lemma SortedInText(text: Utf8, all: seq<Span>)
    ensures AllInText(text, Sort(all, StartLe)) <==> AllInText(text, all)
  {
    OrdersAreTotal();
    SortKeeps(all, StartLe);
  }

  lemma MaskNothing(text: Utf8)
    ensures MaskOf(text, []) == Masked(text)
  {
    assert text[0..] == text;
  }

  // ---- When masking faults ----

  lemma {:induction false} SplicedIff(text: Utf8, ds: seq<Span>, cursor: nat)
    requires AllInText(text, ds) && cursor <= |text|
    ensures Spliced(text, ds, cursor).Some? <==> NeighboursApart(ds) && (ds != [] ==> cursor <= ds[0].start)
  {
    if ds != [] {
      assert ds[0] in ds;
      assert forall d :: d in ds[1..] ==> d in ds;
      SplicedIff(text, ds[1..], ds[0].end);
      assert NeighboursApart(ds) <==> NeighboursApart(ds[1..]) && (|ds| > 1 ==> ds[0].end <= ds[1].start) by {
        assert forall i :: 0 <= i < |ds[1..]| ==> ds[1..][i] == ds[i + 1];
        if NeighboursApart(ds[1..]) && (|ds| > 1 ==> ds[0].end <= ds[1].start) {
          forall i | 0 <= i < |ds| - 1
            ensures ds[i].end <= ds[i + 1].start
          {
            if i > 0 {
              assert ds[1..][i - 1].end <= ds[1..][i - 1 + 1].start;
            }
          }
        }
        if NeighboursApart(ds) {
          forall i | 0 <= i < |ds[1..]| - 1
            ensures ds[1..][i].end <= ds[1..][i + 1].start
          {
            assert ds[i + 1].end <= ds[i + 1 + 1].start;
          }
        }
      }
    }
  }

  /** At `start`: does a span listed after a non-empty one start there too? */
  predicate ClashAt(ds: seq<Span>, start: nat) {
    ds != [] &&
    ((ds[0].start == start && ds[0].end > start && StartsAt(ds[1..], start) != []) || ClashAt(ds[1..], start))
  }

  function StartsAt(ds: seq<Span>, start: nat): seq<Span> {
    if ds == [] then [] else (if ds[0].start == start then [ds[0]] else []) + StartsAt(ds[1..], start)
  }

  lemma {:induction false} InsertStable(x: Span, s: seq<Span>, start: nat)
    ensures StartsAt(Insert(x, s, StartLe), start) == StartsAt([x] + s, start)
  {
    assert ([x] + s)[1..] == s;
    if !(s == [] || StartLe(x, s[0])) {
      InsertStable(x, s[1..], start);
      var rest := Insert(x, s[1..], StartLe);
      assert ([s[0]] + rest)[1..] == rest;
      assert ([x] + s[1..])[1..] == s[1..];
    }
  }

  /** Sorting by start keeps the listed order of the spans that share a start. */
  lemma {:induction false} SortStable(s: seq<Span>, start: nat)
    ensures StartsAt(Sort(s, StartLe), start) == StartsAt(s, start)
  {
    if s != [] {
      SortStable(s[1..], start);
      InsertStable(s[0], Sort(s[1..], StartLe), start);
      var rest := Sort(s[1..], StartLe);
      assert ([s[0]] + rest)[1..] == rest;
    }
  }

  lemma {:induction false} ClashLocal(ds: seq<Span>, start: nat)
    ensures ClashAt(ds, start) <==> ClashAt(StartsAt(ds, start), start)
    ensures StartsAt(StartsAt(ds, start), start) == StartsAt(ds, start)
  {
    if ds != [] {
      ClashLocal(ds[1..], start);
      var here, tail := StartsAt(ds, start), StartsAt(ds[1..], start);
      if ds[0].start == start {
        assert here == [ds[0]] + tail && here[1..] == tail;
      } else {
        assert here == tail;
      }
    }
  }

  lemma {:induction false} ClashIndices(ds: seq<Span>, start: nat)
    ensures ClashAt(ds, start) <==>
            exists i, j :: 0 <= i < j < |ds| && ds[i].start == start == ds[j].start && ds[i].end > start
  {
    if ds != [] {
      ClashIndices(ds[1..], start);
      StartsAtMembers(ds[1..], start);
      var tail := ds[1..];
      if ClashAt(tail, start) {
        var i, j :| 0 <= i < j < |tail| && tail[i].start == start == tail[j].start && tail[i].end > start;
        assert ds[i + 1].start == start == ds[j + 1].start && ds[i + 1].end > start;
      } else if ClashAt(ds, start) {
        var j :| 0 <= j < |tail| && tail[j].start == start;
        assert ds[0].start == start == ds[j + 1].start && ds[0].end > start;
      }
      if i, j :| 0 <= i < j < |ds| && ds[i].start == start == ds[j].start && ds[i].end > start {
        assert tail[j - 1] == ds[j];
        if i > 0 {
          assert tail[i - 1] == ds[i];
        }
      }
    }
  }

  lemma {:induction false} StartsAtMembers(ds: seq<Span>, start: nat)
    ensures StartsAt(ds, start) != [] <==> exists j :: 0 <= j < |ds| && ds[j].start == start
  {
    if ds != [] {
      StartsAtMembers(ds[1..], start);
      var tail := ds[1..];
      if StartsAt(tail, start) != [] {
        var j :| 0 <= j < |tail| && tail[j].start == start;
        assert ds[j + 1].start == start;
      }
      if j :| 0 <= j < |ds| && ds[j].start == start {
        assert j > 0 ==> tail[j - 1] == ds[j];
      }
    }
  }

  /** Somewhere a span follows a non-empty one with the same start. */
  ghost predicate Clashes(ds: seq<Span>) {
    exists i, j :: 0 <= i < j < |ds| && ds[i].start == ds[j].start && ds[i].start < ds[i].end
  }

  lemma ClashTo(ds: seq<Span>) returns (start: nat)
    requires Clashes(ds)
    ensures ClashAt(ds, start)
  {
    var i, j :| 0 <= i < j < |ds| && ds[i].start == ds[j].start && ds[i].start < ds[i].end;
    start := ds[i].start;
    ClashIndices(ds, start);
  }

  lemma ClashFrom(ds: seq<Span>, start: nat)
    requires ClashAt(ds, start)
    ensures Clashes(ds)
  {
    ClashIndices(ds, start);
  }

  lemma SortClashAt(ds: seq<Span>, start: nat)
    ensures ClashAt(Sort(ds, StartLe), start) <==> ClashAt(ds, start)
  {
    hide ClashAt, Sort, StartsAt;
    SortStable(ds, start);
    ClashLocal(Sort(ds, StartLe), start);
    ClashLocal(ds, start);
  }

  /** Sorting by start neither makes nor removes a clash. */
  lemma SortClashes(ds: seq<Span>)
    ensures Clashes(Sort(ds, StartLe)) <==> Clashes(ds)
  {
    hide ClashAt, Sort, Clashes;
    if Clashes(Sort(ds, StartLe)) {
      var start := ClashTo(Sort(ds, StartLe));
      SortClashAt(ds, start);
      ClashFrom(ds, start);
    }
    if Clashes(ds) {
      var start := ClashTo(ds);
      SortClashAt(ds, start);
      ClashFrom(Sort(ds, StartLe), start);
    }
  }

  /** Sorted by start and disjoint, neighbours collide exactly where there is a clash. */
  lemma SortedClash(s: seq<Span>)
    requires Sorted(s, StartLe) && Pairwise(s, Disjoint) && forall k :: 0 <= k < |s| ==> s[k].start <= s[k].end
    ensures NeighboursApart(s) <==> !Clashes(s)
  {
    if !NeighboursApart(s) {
      var i :| 0 <= i < |s| - 1 && s[i].end > s[i + 1].start;
      PairwiseAt(s, Disjoint, i, i + 1);
      assert StartLe(s[i], s[i + 1]);
      assert s[i].start == s[i + 1].start;
    } else if Clashes(s) {
      var i, j :| 0 <= i < j < |s| && s[i].start == s[j].start && s[i].start < s[i].end;
      ApartFurther(s, i, j);
    }
  }

  /**
   Of validated spans, masking faults exactly when the map lists a span after a non-empty one
   with the same start. Validation leaves only an empty span to be that follower.
   */
  lemma FaultIff(text: Utf8, all: seq<Span>)
    ensures MaskOf(text, all).SliceFault? <==> AllInText(text, all) && Pairwise(all, Disjoint) && Clashes(all)
  {
    hide Clashes, Spliced, Sort, Pairwise, NeighboursApart, InText;
    var s := Sort(all, StartLe);
    if AllInText(text, all) && Pairwise(all, Disjoint) {
      OrdersAreTotal();
      SortKeeps(all, StartLe);
      SortPairwise(all, StartLe, Disjoint);
      forall k | 0 <= k < |s|
        ensures s[k].start <= s[k].end
      {
        assert s[k] in all;
        InTextProper(text, s[k]);
      }
      SplicedIff(text, s, 0);
      SortedClash(s);
      SortClashes(all);
    }
  }

  /** Spans that are all non-empty are never spliced backwards: masking either rejects them or succeeds. */
  lemma NonEmptyNeverFaults(text: Utf8, all: seq<Span>)
    requires forall d :: d in all ==> d.start < d.end
    ensures !MaskOf(text, all).SliceFault?
  {
    FaultIff(text, all);
    if MaskOf(text, all).SliceFault? {
      var i, j :| 0 <= i < j < |all| && all[i].start == all[j].start && all[i].start < all[i].end;
      PairwiseAt(all, Disjoint, i, j);
    }
  }

  /** An accepted pair that faults in one listing order and not in the other. */
  lemma OrderCanFault(text: Utf8, kind: PiiType)
    requires |text| == 2
    ensures var full, empty := Span(kind, 0, 2, 0, []), Span(kind, 0, 0, 0, []);
            MaskOf(text, [full, empty]).SliceFault? && MaskOf(text, [empty, full]).Masked?
  {
    var full, empty := Span(kind, 0, 2, 0, []), Span(kind, 0, 0, 0, []);
    var a, b := [full, empty], [empty, full];
    FaultIff(text, a);
    FaultIff(text, b);
    PairwiseFromAt(a, Disjoint);
    PairwiseFromAt(b, Disjoint);
    assert a[0].start == a[1].start && a[0].start < a[0].end;
    assert AllInText(text, a) && AllInText(text, b);
  }

  // ---- Detect, then mask ----

  lemma {:induction false} OfKindMembers(ks: seq<Span>, kind: PiiType)
    ensures forall k :: k in OfKind(ks, kind) <==> k in ks && k.kind == kind
  {
    if ks != [] {
      OfKindMembers(ks[..|ks| - 1], kind);
      assert ks == ks[..|ks| - 1] + [ks[|ks| - 1]];
    }
  }

  /** Two kept spans: disjoint, and sharing a start only if both are empty. */
  predicate Tidy(a: Span, b: Span) {
    Disjoint(a, b) && (a.start == b.start ==> a.start == a.end && b.start == b.end)
  }

  lemma SelectTidy(cs: seq<Span>)
    requires Proper(cs)
    ensures Pairwise(Select(cs), Tidy)
  {
    var ks := Select(cs);
    PrecedesIsOrder();
    SortKeeps(cs, Precedes);
    GreedySorted(Sort(cs, Precedes), 0);
    SelectIsLeftmostLongest(cs);
    forall i, j | 0 <= i < j < |ks|
      ensures Tidy(ks[i], ks[j])
    {
      assert ks[i] in ks && ks[j] in ks && Precedes(ks[i], ks[j]);
    }
    PairwiseFromAt(ks, Tidy);
  }

  lemma {:induction false} OfKindPairwise(ks: seq<Span>, kind: PiiType)
    requires Pairwise(ks, Tidy)
    ensures Pairwise(OfKind(ks, kind), Tidy)
  {
    if ks != [] {
      var front, last := ks[..|ks| - 1], ks[|ks| - 1];
      assert ks == front + [last];
      PairwiseSplit(front, last, Tidy);
      OfKindPairwise(front, kind);
      OfKindMembers(front, kind);
      if last.kind == kind {
        PairwiseAppend(OfKind(front, kind), [last], Tidy);
      } else {
        assert OfKind(ks, kind) == OfKind(front, kind);
      }
    }
  }

  lemma {:induction false} ListedMembers(m: Detections, ks: seq<Span>, order: seq<PiiType>)
    requires Groups(m, ks)
    ensures forall x :: x in Listed(m, order) <==> x in ks && x.kind in order
  {
    if order != [] {
      var k := order[|order| - 1];
      ListedMembers(m, ks, order[..|order| - 1]);
      OfKindMembers(ks, k);
      assert order == order[..|order| - 1] + [k];
    }
  }

  /** Listing tidy spans type by type leaves them tidy, in whatever order the types come. */
  lemma {:induction false} ListedTidy(m: Detections, ks: seq<Span>, order: seq<PiiType>)
    requires Groups(m, ks) && Pairwise(ks, Tidy)
    requires forall i, j :: 0 <= i < j < |order| ==> order[i] != order[j]
    ensures Pairwise(Listed(m, order), Tidy)
  {
    if order != [] {
      var k, earlier := order[|order| - 1], order[..|order| - 1];
      ListedTidy(m, ks, earlier);
      if k in m {
        OfKindPairwise(ks, k);
        ListedMembers(m, ks, earlier);
        OfKindMembers(ks, k);
        forall x, y | x in Listed(m, earlier) && y in m[k]
          ensures Tidy(x, y)
        {
          PairwiseMembers(ks, Tidy, x, y);
        }
        PairwiseAppend(Listed(m, earlier), m[k], Tidy);
      } else {
        assert Listed(m, order) == Listed(m, earlier);
      }
    }
  }

  lemma {:induction false} TidyIsDisjoint(s: seq<Span>)
    requires Pairwise(s, Tidy)
    ensures Pairwise(s, Disjoint)
  {
    if s != [] {
      TidyIsDisjoint(s[1..]);
    }
  }

  /** Every span of the text, each kept span once, whatever the order of types. */
  lemma EnumerationTidy(m: Detections, ks: seq<Span>, all: seq<Span>, order: seq<PiiType>)
    requires Groups(m, ks) && Pairwise(ks, Tidy) && Enumerates(all, m, order)
    ensures Pairwise(all, Tidy)
    ensures forall x :: x in all <==> x in ks
  {
    ListedTidy(m, ks, order);
    ListedMembers(m, ks, order);
    forall x | x in ks
      ensures x.kind in order
    {
      OfKindMembers(ks, x.kind);
      assert x in OfKind(ks, x.kind);
    }
  }

  /** What the detector reports is always masked: the validator accepts it and no slice runs backwards. */
  lemma DetectThenMask(text: Utf8, cs: seq<Span>, m: Detections, all: seq<Span>, order: seq<PiiType>)
    requires AllInText(text, cs) && Groups(m, Select(cs)) && Enumerates(all, m, order)
    ensures MaskOf(text, all).Masked?
  {
    SelectTidy(cs);
    SelectIsLeftmostLongest(cs);
    EnumerationTidy(m, Select(cs), all, order);
    TidyIsDisjoint(all);
    FaultIff(text, all);
    if Clashes(all) {
      var i, j :| 0 <= i < j < |all| && all[i].start == all[j].start && all[i].start < all[i].end;
      PairwiseAt(all, Tidy, i, j);
    }
  }

  /** Spans that start together have one type. */
  ghost predicate OneKindPerStart(ks: seq<Span>) {
    forall a, b :: a in ks && b in ks && a.start == b.start ==> a.kind == b.kind
  }

  lemma {:induction false} StartsAtAppend(a: seq<Span>, b: seq<Span>, start: nat)
    ensures StartsAt(a + b, start) == StartsAt(a, start) + StartsAt(b, start)
  {
    if a == [] {
      assert a + b == b;
    } else {
      assert (a + b)[1..] == a[1..] + b;
      StartsAtAppend(a[1..], b, start);
    }
  }

  /** Of spans that start together and have one type, taking a type takes all or none. */
  lemma {:induction false} StartsOfKind(ks: seq<Span>, kind: PiiType, start: nat, common: PiiType)
    requires forall a :: a in ks && a.start == start ==> a.kind == common
    ensures StartsAt(OfKind(ks, kind), start) == if kind == common then StartsAt(ks, start) else []
  {
    if ks != [] {
      var front, last := ks[..|ks| - 1], ks[|ks| - 1];
      assert ks == front + [last];
      StartsOfKind(front, kind, start, common);
      StartsAtAppend(OfKind(front, kind), [last], start);
      StartsAtAppend(front, [last], start);
      assert OfKind(ks, kind) == if last.kind == kind then OfKind(front, kind) + [last] else OfKind(front, kind);
    }
  }

  lemma {:induction false} StartsAtNone(ks: seq<Span>, start: nat)
    ensures StartsAt(ks, start) == [] <==> forall a :: a in ks ==> a.start != start
  {
    if ks != [] {
      StartsAtNone(ks[1..], start);
      assert ks == [ks[0]] + ks[1..];
    }
  }

  lemma ListedStep(m: Detections, ks: seq<Span>, order: seq<PiiType>, n: nat)
    requires Groups(m, ks) && |order| == n + 1
    ensures Listed(m, order) == Listed(m, order[..n]) + OfKind(ks, order[n])
  {
  }

  /** Listed type by type, spans that start together stay together and in order. */
  lemma {:induction false} ListedStarts(m: Detections, ks: seq<Span>, order: seq<PiiType>, start: nat, common: PiiType)
    requires Groups(m, ks) && forall b :: b in ks && b.start == start ==> b.kind == common
    requires forall i, j :: 0 <= i < j < |order| ==> order[i] != order[j]
    ensures StartsAt(Listed(m, order), start) == if common in order then StartsAt(ks, start) else []
  {
    hide Groups, StartsAt, OfKind;
    if order == [] {
      StartsAtNone([], start);
    } else {
      var n := |order| - 1;
      var earlier, k := order[..n], order[n];
      assert order == earlier + [k] && k !in earlier;
      ListedStarts(m, ks, earlier, start, common);
      ListedStep(m, ks, order, n);
      StartsOfKind(ks, k, start, common);
      StartsAtAppend(Listed(m, earlier), OfKind(ks, k), start);
    }
  }

  /** A list sorted by start is determined by what it holds at each start. */
  lemma {:induction false} SortedByStarts(a: seq<Span>, b: seq<Span>)
    requires Sorted(a, StartLe) && Sorted(b, StartLe) && forall start :: StartsAt(a, start) == StartsAt(b, start)
    ensures a == b
  {
    if a == [] {
      if b != [] {
        StartsAtTail(b, b[0].start);
      }
    } else {
      assert StartsAt(a, a[0].start)[0] == a[0];
      SameHead(a, b);
      forall start
        ensures StartsAt(a[1..], start) == StartsAt(b[1..], start)
      {
        StartsAtTail(a, start);
        StartsAtTail(b, start);
      }
      SortedByStarts(a[1..], b[1..]);
      assert a == [a[0]] + a[1..] && b == [b[0]] + b[1..];
    }
  }

  lemma StartsAtTail(a: seq<Span>, start: nat)
    requires a != []
    ensures a[0].start == start ==> StartsAt(a, start) != []
    ensures StartsAt(a[1..], start) == if a[0].start == start then StartsAt(a, start)[1..] else StartsAt(a, start)
  {
  }

  lemma SameHead(a: seq<Span>, b: seq<Span>)
    requires Sorted(a, StartLe) && Sorted(b, StartLe) && a != []
    requires forall start :: StartsAt(a, start) == StartsAt(b, start)
    ensures b != [] && a[0] == b[0]
  {
    StartsAtNone(b, a[0].start);
    var y :| y in b && y.start == a[0].start;
    StartsAtNone(a, b[0].start);
    assert StartsAt(b, b[0].start)[0] == b[0];
    var x :| x in a && x.start == b[0].start;
    assert StartLe(a[0], x) && StartLe(b[0], y);
    assert StartsAt(a, a[0].start)[0] == a[0];
  }

  /** Selected spans of distinct types never start together unless both are empty. */
  lemma SelectOneKind(cs: seq<Span>)
    requires Proper(cs) && forall c :: c in cs ==> c.start < c.end || c.kind.Custom?
    ensures OneKindPerStart(Select(cs))
  {
    SelectTidy(cs);
    SelectIsLeftmostLongest(cs);
    TidySymmetric();
    var ks := Select(cs);
    forall a, b | a in ks && b in ks && a.start == b.start
      ensures a.kind == b.kind
    {
      if a != b {
        PairwiseMembers(ks, Tidy, a, b);
      }
    }
  }

  /** Whatever the order of types, sorting the reported spans by start gives back the selection. */
  lemma SortRestores(cs: seq<Span>, m: Detections, all: seq<Span>, order: seq<PiiType>)
    requires Proper(cs) && Groups(m, Select(cs)) && Enumerates(all, m, order) && OneKindPerStart(Select(cs))
    ensures Sort(all, StartLe) == Select(cs)
  {
    hide Sort, Groups, OneKindPerStart;
    var ks := Select(cs);
    OrdersAreTotal();
    SortKeeps(all, StartLe);
    SelectSorted(cs);
    SelectTidy(cs);
    EnumerationTidy(m, ks, all, order);
    forall start: nat
      ensures StartsAt(Sort(all, StartLe), start) == StartsAt(ks, start)
    {
      SortStable(all, start);
      StartsAtNone(ks, start);
      StartsAtNone(all, start);
      if a :| a in ks && a.start == start {
        CommonKind(ks, a);
        ListedStarts(m, ks, order, start, a.kind);
        KindListed(m, ks, order, a);
      }
    }
    SortedByStarts(Sort(all, StartLe), ks);
  }

  lemma CommonKind(ks: seq<Span>, a: Span)
    requires OneKindPerStart(ks) && a in ks
    ensures forall b :: b in ks && b.start == a.start ==> b.kind == a.kind
  {
  }

  lemma KindListed(m: Detections, ks: seq<Span>, order: seq<PiiType>, a: Span)
    requires Groups(m, ks) && (forall k :: k in m <==> k in order) && a in ks
    ensures a.kind in order
  {
    OfKindMembers(ks, a.kind);
    assert a in OfKind(ks, a.kind);
  }

  lemma SelectSorted(cs: seq<Span>)
    requires Proper(cs)
    ensures Sorted(Select(cs), StartLe)
  {
    PrecedesIsOrder();
    SortKeeps(cs, Precedes);
    GreedySorted(Sort(cs, Precedes), 0);
    var ks := Select(cs);
    forall i, j | 0 <= i < j < |ks|
      ensures StartLe(ks[i], ks[j])
    {
      assert Precedes(ks[i], ks[j]);
    }
  }

  /**
   The masked text is the original with exactly the selected spans replaced, in whatever order
   the types come, if spans that start together have one type.
   */
  lemma MaskedIsSelection(text: Utf8, cs: seq<Span>, m: Detections, all: seq<Span>, order: seq<PiiType>)
    requires AllInText(text, cs) && Groups(m, Select(cs)) && Enumerates(all, m, order)
    requires OneKindPerStart(Select(cs))
    ensures Spliced(text, Select(cs), 0).Some?
    ensures MaskOf(text, all) == Masked(Spliced(text, Select(cs), 0).value)
  {
    hide Groups, OneKindPerStart;
    DetectThenMask(text, cs, m, all, order);
    SortRestores(cs, m, all, order);
  }

  lemma TidySymmetric()
    ensures Symmetric(Tidy)
  {
  }

  // ---- What splicing replaces ----

  /** The pieces of text between the spans, from `cursor` on. */
  function Gaps(text: Utf8, ds: seq<Span>, cursor: nat): seq<Utf8>
    requires Spliced(text, ds, cursor).Some?
  {
    if ds == [] then [text[cursor..]]
    else [text[cursor..ds[0].start]] + Gaps(text, ds[1..], ds[0].end)
  }

  /** Gap, filling, gap, filling, ..., gap. */
  function Interleave(gaps: seq<Utf8>, fills: seq<Utf8>): Utf8
    requires |gaps| == |fills| + 1
  {
    if fills == [] then gaps[0] else gaps[0] + fills[0] + Interleave(gaps[1..], fills[1..])
  }

  function Original(text: Utf8, d: Span): Utf8 {
    if InText(text, d) then text[d.start..d.end] else []
  }

  function Originals(text: Utf8, ds: seq<Span>): seq<Utf8> {
    seq(|ds|, i requires 0 <= i < |ds| => Original(text, ds[i]))
  }

  function Replacements(ds: seq<Span>): seq<Utf8> {
    seq(|ds|, i requires 0 <= i < |ds| => ds[i].replacement)
  }

  /** Text and result agree on every gap and differ only in what fills the spans. */
  lemma {:induction false} SplicedReplaces(text: Utf8, ds: seq<Span>, cursor: nat)
    requires Spliced(text, ds, cursor).Some? && forall i :: 0 <= i < |ds| ==> InText(text, ds[i])
    ensures |Gaps(text, ds, cursor)| == |ds| + 1 && cursor <= |text|
    ensures Interleave(Gaps(text, ds, cursor), Originals(text, ds)) == text[cursor..]
    ensures Interleave(Gaps(text, ds, cursor), Replacements(ds)) == Spliced(text, ds, cursor).value
  {
    if ds != [] {
      SplicedReplaces(text, ds[1..], ds[0].end);
      var gaps := Gaps(text, ds, cursor);
      assert gaps[1..] == Gaps(text, ds[1..], ds[0].end);
      assert Originals(text, ds)[1..] == Originals(text, ds[1..]);
      assert Replacements(ds)[1..] == Replacements(ds[1..]);
      assert text[cursor..] == text[cursor..ds[0].start] + text[ds[0].start..ds[0].end] + text[ds[0].end..];
    }
  }
}

/**
 Detection and masking carried through nested Python data: strings are masked, containers are
 rebuilt, everything else passes through. Depth, collection size and text size are limited.
 */
module PiiNested {
  import opened Outcomes
  import opened PiiSpans
  import opened PiiMasking

  datatype Value =
    | Str(text: Utf8)
    | List(items: seq<Value>)
    | Tuple(items: seq<Value>)
    | Dict(entries: seq<Entry>)
    | Other(id: nat)

  datatype Entry = Entry(key: Utf8, value: Value)

  datatype Limits = Limits(maxDepth: nat, maxItems: nat, maxBytes: nat)

  datatype Rejection = TooDeep | TooManyItems | TextTooLarge | MaskFailed

  datatype Processed = Processed(modified: bool, value: Value, detections: Detections)

  /** The candidates found in a text. */
  type Finder = Utf8 -> seq<Span>

  /** Matches lie on character boundaries of their text; only custom patterns can match the empty text. */
  ghost predicate GoodFinder(find: Finder) {
    forall t, c :: c in find(t) ==> InText(t, c) && (c.start < c.end || c.kind.Custom?)
  }

  // ---- What is required of the result ----

  ghost predicate Within(v: Value, depth: nat, limits: Limits) {
    depth <= limits.maxDepth &&
    match v
    case Str(t) => |t| <= limits.maxBytes
    case List(items) =>
      |items| <= limits.maxItems && forall i :: 0 <= i < |items| ==> Within(items[i], depth + 1, limits)
    case Tuple(items) =>
      |items| <= limits.maxItems && forall i :: 0 <= i < |items| ==> Within(items[i], depth + 1, limits)
    case Dict(entries) =>
      |entries| <= limits.maxItems && forall i :: 0 <= i < |entries| ==> Within(entries[i].value, depth + 1, limits)
    case Other(_) => true
  }

  /** The first node in traversal order that breaks a limit, by the limit it breaks. */
  function FirstFault(v: Value, depth: nat, limits: Limits): Option<Rejection>
    decreases v
  {
    if depth > limits.maxDepth then Some(TooDeep)
    else
      match v
      case Str(t) => if |t| > limits.maxBytes then Some(TextTooLarge) else None
      case List(items) => if |items| > limits.maxItems then Some(TooManyItems) else FaultIn(items, depth, limits)
      case Tuple(items) => if |items| > limits.maxItems then Some(TooManyItems) else FaultIn(items, depth, limits)
      case Dict(entries) => if |entries| > limits.maxItems then Some(TooManyItems) else FaultAt(entries, depth, limits)
      case Other(_) => None
  }

  function Earlier(a: Option<Rejection>, b: Option<Rejection>): Option<Rejection> {
    if a.Some? then a else b
  }

  function FaultIn(items: seq<Value>, depth: nat, limits: Limits): Option<Rejection>
    decreases items
  {
    if items == [] then None
    else Earlier(FaultIn(items[..|items| - 1], depth, limits), FirstFault(items[|items| - 1], depth + 1, limits))
  }

  function FaultAt(entries: seq<Entry>, depth: nat, limits: Limits): Option<Rejection>
    decreases entries
  {
    if entries == [] then None
    else
      var e := entries[|entries| - 1];
      assert e.value < e;
      Earlier(FaultAt(entries[..|entries| - 1], depth, limits), FirstFault(e.value, depth + 1, limits))
  }

  lemma {:induction false} FaultInPrefix(items: seq<Value>, i: nat, depth: nat, limits: Limits)
    requires i <= |items| && FaultIn(items[..i], depth, limits).Some?
    ensures FaultIn(items, depth, limits) == FaultIn(items[..i], depth, limits)
  {
    hide FirstFault;
    if i < |items| {
      assert items[..|items| - 1][..i] == items[..i];
      FaultInPrefix(items[..|items| - 1], i, depth, limits);
    } else {
      assert items[..i] == items;
    }
  }

  lemma {:induction false} FaultAtPrefix(entries: seq<Entry>, i: nat, depth: nat, limits: Limits)
    requires i <= |entries| && FaultAt(entries[..i], depth, limits).Some?
    ensures FaultAt(entries, depth, limits) == FaultAt(entries[..i], depth, limits)
  {
    hide FirstFault;
    if i < |entries| {
      assert entries[..|entries| - 1][..i] == entries[..i];
      FaultAtPrefix(entries[..|entries| - 1], i, depth, limits);
    } else {
      assert entries[..i] == entries;
    }
  }

  /** No node breaks a limit exactly when every node respects them. */
  lemma {:induction false} FaultlessIffWithin(v: Value, depth: nat, limits: Limits)
    ensures FirstFault(v, depth, limits) == None <==> Within(v, depth, limits)
    decreases v, 1
  {
    match v {
      case Str(_) =>
      case List(items) =>
        FaultlessIn(items, depth, limits);
      case Tuple(items) =>
        FaultlessIn(items, depth, limits);
      case Dict(entries) =>
        FaultlessAt(entries, depth, limits);
      case Other(_) =>
    }
  }

  lemma {:induction false} FaultlessIn(items: seq<Value>, depth: nat, limits: Limits)
    ensures FaultIn(items, depth, limits) == None
            <==> forall i :: 0 <= i < |items| ==> Within(items[i], depth + 1, limits)
    decreases items, 0
  {
    hide FirstFault, Within;
    if items != [] {
      var n := |items| - 1;
      FaultlessIn(items[..n], depth, limits);
      FaultlessIffWithin(items[n], depth + 1, limits);
      assert forall i :: 0 <= i < n ==> items[..n][i] == items[i];
    }
  }

  lemma {:induction false} FaultlessAt(entries: seq<Entry>, depth: nat, limits: Limits)
    ensures FaultAt(entries, depth, limits) == None
            <==> forall i :: 0 <= i < |entries| ==> Within(entries[i].value, depth + 1, limits)
    decreases entries, 0
  {
    hide FirstFault, Within;
    if entries != [] {
      var n := |entries| - 1;
      var e := entries[n];
      assert e.value < e;
      FaultlessAt(entries[..n], depth, limits);
      FaultlessIffWithin(e.value, depth + 1, limits);
      assert forall i :: 0 <= i < n ==> entries[..n][i] == entries[i];
    }
  }

  /** The limit `e` is broken at this node itself. */
  predicate NodeBreaks(v: Value, depth: nat, limits: Limits, e: Rejection) {
    match e
    case TooDeep => depth > limits.maxDepth
    case TooManyItems =>
      && depth <= limits.maxDepth
      && ((v.List? && |v.items| > limits.maxItems) || (v.Tuple? && |v.items| > limits.maxItems)
          || (v.Dict? && |v.entries| > limits.maxItems))
    case TextTooLarge => depth <= limits.maxDepth && v.Str? && |v.text| > limits.maxBytes
    case MaskFailed => false
  }

  /** The first broken limit, outside in and left to right: everything before it respects the limits. */
  ghost predicate FirstBreak(v: Value, depth: nat, limits: Limits, e: Rejection)
    decreases v
  {
    NodeBreaks(v, depth, limits, e) ||
    (depth <= limits.maxDepth &&
     match v
     case Str(_) => false
     case List(items) => |items| <= limits.maxItems && BreakIn(items, depth, limits, e)
     case Tuple(items) => |items| <= limits.maxItems && BreakIn(items, depth, limits, e)
     case Dict(entries) => |entries| <= limits.maxItems && BreakAt(entries, depth, limits, e)
     case Other(_) => false)
  }

  ghost predicate BreakIn(items: seq<Value>, depth: nat, limits: Limits, e: Rejection)
    decreases items, 0
  {
    exists i :: 0 <= i < |items| && FirstBreak(items[i], depth + 1, limits, e)
                && forall j :: 0 <= j < i ==> Within(items[j], depth + 1, limits)
  }

  ghost predicate BreakAt(entries: seq<Entry>, depth: nat, limits: Limits, e: Rejection)
    decreases entries, 0
  {
    exists i :: 0 <= i < |entries| && FirstBreak(entries[i].value, depth + 1, limits, e)
                && forall j :: 0 <= j < i ==> Within(entries[j].value, depth + 1, limits)
  }

  /** The fault found is the first broken limit. */
  lemma {:induction false} FirstFaultIs(v: Value, depth: nat, limits: Limits)
    ensures var f := FirstFault(v, depth, limits); f.Some? ==> FirstBreak(v, depth, limits, f.value)
    decreases v, 1
  {
    match v {
      case Str(_) =>
      case List(items) =>
        FaultInIs(items, depth, limits);
      case Tuple(items) =>
        FaultInIs(items, depth, limits);
      case Dict(entries) =>
        FaultAtIs(entries, depth, limits);
      case Other(_) =>
    }
  }

  lemma {:induction false} FaultInIs(items: seq<Value>, depth: nat, limits: Limits)
    ensures var f := FaultIn(items, depth, limits); f.Some? ==> BreakIn(items, depth, limits, f.value)
    decreases items, 0
  {
    hide FirstFault, FirstBreak, Within;
    if items != [] {
      var n := |items| - 1;
      FaultInIs(items[..n], depth, limits);
      FirstFaultIs(items[n], depth + 1, limits);
      FaultlessIn(items[..n], depth, limits);
      assert forall i :: 0 <= i < n ==> items[..n][i] == items[i];
    }
  }

  lemma {:induction false} FaultAtIs(entries: seq<Entry>, depth: nat, limits: Limits)
    ensures var f := FaultAt(entries, depth, limits); f.Some? ==> BreakAt(entries, depth, limits, f.value)
    decreases entries, 0
  {
    hide FirstFault, FirstBreak, Within;
    if entries != [] {
      var n := |entries| - 1;
      var e := entries[n];
      assert e.value < e;
      FaultAtIs(entries[..n], depth, limits);
      FirstFaultIs(e.value, depth + 1, limits);
      FaultlessAt(entries[..n], depth, limits);
      assert forall i :: 0 <= i < n ==> entries[..n][i] == entries[i];
    }
  }

  ghost function MaskText(find: Finder, t: Utf8): Utf8 {
    var spliced := Spliced(t, Select(find(t)), 0);
    if spliced.Some? then spliced.value else t
  }

  /** The same tree with every text leaf masked. */
  ghost function MaskTree(find: Finder, v: Value): Value {
    match v
    case Str(t) => Str(MaskText(find, t))
    case List(items) => List(seq(|items|, i requires 0 <= i < |items| => MaskTree(find, items[i])))
    case Tuple(items) => Tuple(seq(|items|, i requires 0 <= i < |items| => MaskTree(find, items[i])))
    case Dict(entries) =>
      Dict(seq(|entries|, i requires 0 <= i < |entries| => Entry(entries[i].key, MaskTree(find, entries[i].value))))
    case Other(_) => v
  }

  /** Every span found in the tree, leaf after leaf in traversal order. */
  ghost function Found(find: Finder, v: Value): seq<Span>
    decreases v
  {
    match v
    case Str(t) => Select(find(t))
    case List(items) => FoundIn(find, items)
    case Tuple(items) => FoundIn(find, items)
    case Dict(entries) => FoundAt(find, entries)
    case Other(_) => []
  }

  ghost function FoundIn(find: Finder, items: seq<Value>): seq<Span>
    decreases items
  {
    if items == [] then []
    else FoundIn(find, items[..|items| - 1]) + Found(find, items[|items| - 1])
  }

  ghost function FoundAt(find: Finder, entries: seq<Entry>): seq<Span>
    decreases entries
  {
    if entries == [] then []
    else FoundAt(find, entries[..|entries| - 1]) + Found(find, entries[|entries| - 1].value)
  }

  /**
   `w` is `v` masked: the same container at every node, of the same length and with the same keys,
   every text with exactly its selected spans replaced, everything else as it was.
   */
  ghost predicate MaskedAs(find: Finder, v: Value, w: Value) {
    match v
    case Str(t) => w.Str? && Spliced(t, Select(find(t)), 0) == Some(w.text)
    case List(items) =>
      w.List? && |w.items| == |items| && forall i :: 0 <= i < |items| ==> MaskedAs(find, items[i], w.items[i])
    case Tuple(items) =>
      w.Tuple? && |w.items| == |items| && forall i :: 0 <= i < |items| ==> MaskedAs(find, items[i], w.items[i])
    case Dict(entries) =>
      && w.Dict? && |w.entries| == |entries|
      && forall i :: 0 <= i < |entries| ==>
           w.entries[i].key == entries[i].key && MaskedAs(find, entries[i].value, w.entries[i].value)
    case Other(_) => w == v
  }

  lemma SelectionSplices(t: Utf8, cs: seq<Span>)
    requires AllInText(t, cs)
    ensures Spliced(t, Select(cs), 0).Some?
  {
    SelectIsLeftmostLongest(cs);
    SplicedIff(t, Select(cs), 0);
  }

  lemma {:induction false} MaskTreeMasks(find: Finder, v: Value)
    requires GoodFinder(find)
    ensures MaskedAs(find, v, MaskTree(find, v))
  {
    match v {
      case Str(t) =>
        SelectionSplices(t, find(t));
      case List(items) =>
        forall i | 0 <= i < |items|
          ensures MaskedAs(find, items[i], MaskTree(find, items[i]))
        {
          MaskTreeMasks(find, items[i]);
        }
      case Tuple(items) =>
        forall i | 0 <= i < |items|
          ensures MaskedAs(find, items[i], MaskTree(find, items[i]))
        {
          MaskTreeMasks(find, items[i]);
        }
      case Dict(entries) =>
        forall i | 0 <= i < |entries|
          ensures MaskedAs(find, entries[i].value, MaskTree(find, entries[i].value))
        {
          MaskTreeMasks(find, entries[i].value);
        }
      case Other(_) =>
    }
  }

  /** The texts of a tree, in traversal order. */
  function Leaves(v: Value): seq<Utf8>
    decreases v
  {
    match v
    case Str(t) => [t]
    case List(items) => LeavesOf(items)
    case Tuple(items) => LeavesOf(items)
    case Dict(entries) => LeavesUnder(entries)
    case Other(_) => []
  }

  function LeavesOf(items: seq<Value>): seq<Utf8>
    decreases items
  {
    if items == [] then [] else Leaves(items[0]) + LeavesOf(items[1..])
  }

  function LeavesUnder(entries: seq<Entry>): seq<Utf8>
    decreases entries
  {
    if entries == [] then []
    else
      var e := entries[0];
      assert e.value < e;
      Leaves(e.value) + LeavesUnder(entries[1..])
  }

  /** What is selected in each of these texts, one after another. */
  ghost function Selected(find: Finder, texts: seq<Utf8>): seq<Span> {
    if texts == [] then [] else Select(find(texts[0])) + Selected(find, texts[1..])
  }

  lemma {:induction false} SelectedAppend(find: Finder, a: seq<Utf8>, b: seq<Utf8>)
    ensures Selected(find, a + b) == Selected(find, a) + Selected(find, b)
  {
    hide Select;
    if a == [] {
      assert a + b == b;
    } else {
      assert (a + b)[1..] == a[1..] + b;
      SelectedAppend(find, a[1..], b);
    }
  }

  lemma {:induction false} LeavesSnoc(items: seq<Value>, last: Value)
    ensures LeavesOf(items + [last]) == LeavesOf(items) + Leaves(last)
  {
    hide Leaves;
    if items == [] {
      assert (items + [last])[1..] == [];
    } else {
      assert (items + [last])[1..] == items[1..] + [last];
      LeavesSnoc(items[1..], last);
    }
  }

  lemma {:induction false} LeavesUnderSnoc(entries: seq<Entry>, last: Entry)
    ensures LeavesUnder(entries + [last]) == LeavesUnder(entries) + Leaves(last.value)
  {
    hide Leaves;
    if entries == [] {
      assert (entries + [last])[1..] == [];
    } else {
      assert (entries + [last])[1..] == entries[1..] + [last];
      LeavesUnderSnoc(entries[1..], last);
    }
  }

  /** What is found in a tree is what is selected in its texts, in traversal order. */
  lemma {:induction false} FoundInLeaves(find: Finder, v: Value)
    ensures Found(find, v) == Selected(find, Leaves(v))
    decreases v, 1
  {
    match v {
      case Str(t) =>
        assert Selected(find, [t]) == Select(find(t)) + Selected(find, [t][1..]);
      case List(items) =>
        FoundInItems(find, items);
      case Tuple(items) =>
        FoundInItems(find, items);
      case Dict(entries) =>
        FoundInEntries(find, entries);
      case Other(_) =>
    }
  }

  lemma {:induction false} FoundInItems(find: Finder, items: seq<Value>)
    ensures FoundIn(find, items) == Selected(find, LeavesOf(items))
    decreases items, 0
  {
    hide Found, Leaves, Selected, LeavesOf;
    if items == [] {
      NoLeaves(find);
    } else {
      var n := |items| - 1;
      FoundInItems(find, items[..n]);
      FoundInLeaves(find, items[n]);
      assert items == items[..n] + [items[n]];
      LeavesSnoc(items[..n], items[n]);
      SelectedAppend(find, LeavesOf(items[..n]), Leaves(items[n]));
    }
  }

  lemma NoLeaves(find: Finder)
    ensures Selected(find, LeavesOf([])) == [] && Selected(find, LeavesUnder([])) == []
  {
  }

  lemma {:induction false} FoundInEntries(find: Finder, entries: seq<Entry>)
    ensures FoundAt(find, entries) == Selected(find, LeavesUnder(entries))
    decreases entries, 0
  {
    hide Found, Leaves, Selected, LeavesUnder;
    if entries == [] {
      NoLeaves(find);
    } else {
      var n := |entries| - 1;
      var e := entries[n];
      assert e.value < e;
      FoundInEntries(find, entries[..n]);
      FoundInLeaves(find, e.value);
      assert entries == entries[..n] + [e];
      LeavesUnderSnoc(entries[..n], e);
      SelectedAppend(find, LeavesUnder(entries[..n]), Leaves(e.value));
    }
  }

  // ---- Merging ----

  function Get(m: Detections, k: PiiType): seq<Span> {
    if k in m then m[k] else []
  }

  method MergeDetectionMaps(target: Detections, source: Detections) returns (merged: Detections)
    ensures merged == map k | k in target.Keys + source.Keys :: Get(target, k) + Get(source, k)
  {
    merged := target;
    var todo := source.Keys;
    while todo != {}
      invariant todo <= source.Keys
      invariant merged.Keys == target.Keys + (source.Keys - todo)
      invariant forall k :: k in merged ==> merged[k] == Get(target, k) + if k in todo then [] else Get(source, k)
      decreases todo
    {
      var k :| k in todo;
      merged := merged[k := Get(merged, k) + source[k]];
      todo := todo - {k};
    }
  }

  lemma {:induction false} OfKindAppend(a: seq<Span>, b: seq<Span>, k: PiiType)
    ensures OfKind(a + b, k) == OfKind(a, k) + OfKind(b, k)
  {
    if b == [] {
      assert a + b == a;
    } else {
      assert (a + b)[..|a + b| - 1] == a + b[..|b| - 1];
      OfKindAppend(a, b[..|b| - 1], k);
    }
  }

  /** Merging the groupings of two lists groups the lists put together: no span is lost or invented. */
  lemma MergeGroups(ma: Detections, a: seq<Span>, mb: Detections, b: seq<Span>, merged: Detections)
    requires Groups(ma, a) && Groups(mb, b)
    requires merged == map k | k in ma.Keys + mb.Keys :: Get(ma, k) + Get(mb, k)
    ensures Groups(merged, a + b)
  {
    forall k
      ensures OfKind(a + b, k) == Get(ma, k) + Get(mb, k)
    {
      OfKindAppend(a, b, k);
    }
  }

  /** Detections held under the given types. */
  function Total(m: Detections, kinds: seq<PiiType>): nat {
    if kinds == [] then 0 else |Get(m, kinds[0])| + Total(m, kinds[1..])
  }

  /** A grouping holds as many detections as the list has spans. */
  lemma {:induction false} TotalIsLength(m: Detections, ks: seq<Span>, kinds: seq<PiiType>)
    requires Groups(m, ks) && (forall k :: k in kinds) && forall i, j :: 0 <= i < j < |kinds| ==> kinds[i] != kinds[j]
    ensures Total(m, kinds) == |ks|
  {
    TotalOfKinds(m, ks, kinds);
    SpreadOverKinds(ks, kinds);
  }

  function OfKinds(ks: seq<Span>, kinds: seq<PiiType>): nat {
    if kinds == [] then 0 else |OfKind(ks, kinds[0])| + OfKinds(ks, kinds[1..])
  }

  lemma {:induction false} TotalOfKinds(m: Detections, ks: seq<Span>, kinds: seq<PiiType>)
    requires Groups(m, ks)
    ensures Total(m, kinds) == OfKinds(ks, kinds)
  {
    if kinds != [] {
      TotalOfKinds(m, ks, kinds[1..]);
    }
  }

  lemma {:induction false} OneMoreKind(front: seq<Span>, last: Span, kinds: seq<PiiType>)
    requires forall i, j :: 0 <= i < j < |kinds| ==> kinds[i] != kinds[j]
    ensures OfKinds(front + [last], kinds) == OfKinds(front, kinds) + if last.kind in kinds then 1 else 0
  {
    if kinds != [] {
      OneMoreKind(front, last, kinds[1..]);
      assert (front + [last])[..|front|] == front;
      assert last.kind in kinds <==> last.kind == kinds[0] || last.kind in kinds[1..];
    }
  }

  lemma {:induction false} SpreadOverKinds(ks: seq<Span>, kinds: seq<PiiType>)
    requires (forall k :: k in kinds) && forall i, j :: 0 <= i < j < |kinds| ==> kinds[i] != kinds[j]
    ensures OfKinds(ks, kinds) == |ks|
  {
    if ks == [] {
      NoneOfKinds(kinds);
    } else {
      var front, last := ks[..|ks| - 1], ks[|ks| - 1];
      assert ks == front + [last];
      SpreadOverKinds(front, kinds);
      OneMoreKind(front, last, kinds);
    }
  }

  lemma {:induction false} NoneOfKinds(kinds: seq<PiiType>)
    ensures OfKinds([], kinds) == 0
  {
    if kinds != [] {
      NoneOfKinds(kinds[1..]);
    }
  }

  // ---- Processing ----

  /** What processing `v` must return. */
  ghost predicate Correct(find: Finder, limits: Limits, v: Value, depth: nat, r: Result<Processed, Rejection>) {
    && FirstFault(v, depth, limits) == (if r.Err? then Some(r.error) else None)
    && (r.Ok? ==>
          && r.value.value == MaskTree(find, v)
          && r.value.modified == (Found(find, v) != [])
          && Groups(r.value.detections, Found(find, v)))
  }

  lemma GroupsEmpty(m: Detections, ks: seq<Span>)
    requires Groups(m, ks)
    ensures m == map[] <==> ks == []
  {
    if ks != [] {
      var last := ks[|ks| - 1];
      assert last in OfKind(ks, last.kind);
      assert last.kind in m;
    }
  }

  /** A leaf without findings is its own masked form. */
  lemma CleanText(find: Finder, t: Utf8)
    requires Select(find(t)) == []
    ensures MaskText(find, t) == t
  {
    assert t[0..] == t;
  }

  lemma MaskedText(find: Finder, t: Utf8, m: Detections, all: seq<Span>, order: seq<PiiType>)
    requires GoodFinder(find) && Groups(m, Select(find(t))) && Enumerates(all, m, order)
    ensures MaskOf(t, all) == Masked(MaskText(find, t))
  {
    SelectOneKind(find(t));
    MaskedIsSelection(t, find(t), m, all, order);
  }

  method ProcessText(find: Finder, limits: Limits, t: Utf8, depth: nat) returns (r: Result<Processed, Rejection>)
    requires GoodFinder(find) && depth <= limits.maxDepth
    ensures Correct(find, limits, Str(t), depth, r)
  {
    hide Enumerates, MaskOf, MaskText, Groups, GoodFinder, Select;
    if |t| > limits.maxBytes {
      return Err(TextTooLarge);
    }
    var detections := CollectDetections(find(t));
    GroupsEmpty(detections, Select(find(t)));
    if detections == map[] {
      CleanText(find, t);
      return Ok(Processed(false, Str(t), map[]));
    }
    var masked := MaskPii(t, detections);
    ghost var all, order :| Enumerates(all, detections, order) && masked == MaskOf(t, all);
    MaskedText(find, t, detections, all, order);
    if masked.Masked? {
      r := Ok(Processed(true, Str(masked.text), detections));
    } else {
      r := Err(MaskFailed);
    }
  }

  /** Nothing found below an item means nothing found in it. */
  lemma {:induction false} NothingIn(find: Finder, items: seq<Value>, i: nat)
    requires FoundIn(find, items) == [] && i < |items|
    ensures Found(find, items[i]) == []
  {
    var n := |items| - 1;
    if i < n {
      assert items[..n][i] == items[i];
      NothingIn(find, items[..n], i);
    }
  }

  lemma {:induction false} NothingAt(find: Finder, entries: seq<Entry>, i: nat)
    requires FoundAt(find, entries) == [] && i < |entries|
    ensures Found(find, entries[i].value) == []
  {
    var n := |entries| - 1;
    if i < n {
      assert entries[..n][i] == entries[i];
      NothingAt(find, entries[..n], i);
    }
  }

  /** A tree without findings is its own masked form. */
  lemma {:induction false} CleanTree(find: Finder, v: Value)
    requires Found(find, v) == []
    ensures MaskTree(find, v) == v
  {
    match v {
      case Str(t) =>
        CleanText(find, t);
      case List(items) =>
        forall i | 0 <= i < |items|
          ensures MaskTree(find, items[i]) == items[i]
        {
          NothingIn(find, items, i);
          CleanTree(find, items[i]);
        }
      case Tuple(items) =>
        forall i | 0 <= i < |items|
          ensures MaskTree(find, items[i]) == items[i]
        {
          NothingIn(find, items, i);
          CleanTree(find, items[i]);
        }
      case Dict(entries) =>
        forall i | 0 <= i < |entries|
          ensures MaskTree(find, entries[i].value) == entries[i].value
        {
          NothingAt(find, entries, i);
          CleanTree(find, entries[i].value);
        }
      case Other(_) =>
    }
  }

  ghost function MaskItems(find: Finder, items: seq<Value>): seq<Value> {
    seq(|items|, i requires 0 <= i < |items| => MaskTree(find, items[i]))
  }

  ghost function MaskEntries(find: Finder, entries: seq<Entry>): seq<Entry> {
    seq(|entries|, i requires 0 <= i < |entries| => Entry(entries[i].key, MaskTree(find, entries[i].value)))
  }

  datatype Collected<T> = Collected(items: seq<T>, detections: Detections)

  /** The loop over the items of a list or tuple. */
  method ProcessItems(find: Finder, limits: Limits, items: seq<Value>, depth: nat)
    returns (r: Result<Collected<Value>, Rejection>)
    requires GoodFinder(find)
    ensures FaultIn(items, depth, limits) == if r.Err? then Some(r.error) else None
    ensures r.Ok? ==> r.value.items == MaskItems(find, items) && Groups(r.value.detections, FoundIn(find, items))
    decreases items, 0
  {
    hide MaskTree, FirstFault, Groups, Found, MaskedAs, Selected, Leaves;
    var done: seq<Value>, detections: Detections := [], map[];
    GroupsNothing();
    for i := 0 to |items|
      invariant FaultIn(items[..i], depth, limits) == None
      invariant done == MaskItems(find, items[..i]) && Groups(detections, FoundIn(find, items[..i]))
    {
      assert items[..i + 1][..i] == items[..i];
      var child := ProcessNested(find, limits, items[i], depth + 1);
      if child.Err? {
        FaultInPrefix(items, i + 1, depth, limits);
        return Err(child.error);
      }
      if child.value.modified {
        done := done + [child.value.value];
        var merged := MergeDetectionMaps(detections, child.value.detections);
        MergeGroups(detections, FoundIn(find, items[..i]), child.value.detections, Found(find, items[i]), merged);
        detections := merged;
      } else {
        CleanTree(find, items[i]);
        done := done + [items[i]];
        assert FoundIn(find, items[..i + 1]) == FoundIn(find, items[..i]);
      }
    }
    assert items[..|items|] == items;
    r := Ok(Collected(done, detections));
  }

  /** The loop over the entries of a mapping. */
  method ProcessEntries(find: Finder, limits: Limits, entries: seq<Entry>, depth: nat)
    returns (r: Result<Collected<Entry>, Rejection>)
    requires GoodFinder(find)
    ensures FaultAt(entries, depth, limits) == if r.Err? then Some(r.error) else None
    ensures r.Ok? ==> r.value.items == MaskEntries(find, entries) && Groups(r.value.detections, FoundAt(find, entries))
    decreases entries, 0
  {
    hide MaskTree, FirstFault, Groups, Found, MaskedAs, Selected, Leaves;
    var done: seq<Entry>, detections: Detections := [], map[];
    GroupsNothing();
    for i := 0 to |entries|
      invariant FaultAt(entries[..i], depth, limits) == None
      invariant done == MaskEntries(find, entries[..i]) && Groups(detections, FoundAt(find, entries[..i]))
    {
      var e := entries[i];
      assert entries[..i + 1][..i] == entries[..i];
      var child := ProcessNested(find, limits, e.value, depth + 1);
      if child.Err? {
        FaultAtPrefix(entries, i + 1, depth, limits);
        return Err(child.error);
      }
      if child.value.modified {
        done := done + [Entry(e.key, child.value.value)];
        var merged := MergeDetectionMaps(detections, child.value.detections);
        MergeGroups(detections, FoundAt(find, entries[..i]), child.value.detections, Found(find, e.value), merged);
        detections := merged;
      } else {
        CleanTree(find, e.value);
        done := done + [e];
        assert FoundAt(find, entries[..i + 1]) == FoundAt(find, entries[..i]);
      }
    }
    assert entries[..|entries|] == entries;
    r := Ok(Collected(done, detections));
  }

  /**
   Fails with the first broken limit, if there is one; otherwise every leaf is masked and nothing
   else changes, and the detections are those of the leaves, in order.
   */
  method ProcessNested(find: Finder, limits: Limits, v: Value, depth: nat) returns (r: Result<Processed, Rejection>)
    requires GoodFinder(find)
    ensures Correct(find, limits, v, depth, r)
    ensures r.Ok? <==> Within(v, depth, limits)
    ensures r.Err? ==> FirstBreak(v, depth, limits, r.error)
    ensures r.Ok? ==>
              && MaskedAs(find, v, r.value.value)
              && (r.value.modified <==> Selected(find, Leaves(v)) != [])
              && Groups(r.value.detections, Selected(find, Leaves(v)))
    decreases v, 1
  {
    hide Groups, MaskedAs, Selected, Leaves, Within, FirstBreak;
    FirstFaultIs(v, depth, limits);
    FaultlessIffWithin(v, depth, limits);
    MaskTreeMasks(find, v);
    FoundInLeaves(find, v);
    if depth > limits.maxDepth {
      return Err(TooDeep);
    }
    match v {
      case Str(t) =>
        r := ProcessText(find, limits, t, depth);
      case List(items) =>
        if |items| > limits.maxItems {
          return Err(TooManyItems);
        }
        var done := ProcessItems(find, limits, items, depth);
        if done.Err? {
          return Err(done.error);
        }
        r := Finish(find, v, List(done.value.items), done.value.detections);
      case Tuple(items) =>
        if |items| > limits.maxItems {
          return Err(TooManyItems);
        }
        var done := ProcessItems(find, limits, items, depth);
        if done.Err? {
          return Err(done.error);
        }
        r := Finish(find, v, Tuple(done.value.items), done.value.detections);
      case Dict(entries) =>
        if |entries| > limits.maxItems {
          return Err(TooManyItems);
        }
        var done := ProcessEntries(find, limits, entries, depth);
        if done.Err? {
          return Err(done.error);
        }
        r := Finish(find, v, Dict(done.value.items), done.value.detections);
      case Other(_) =>
        GroupsNothing();
        r := Ok(Processed(false, v, map[]));
    }
  }

  /** A container is returned as it came if nothing was detected below it, rebuilt otherwise. */
  method Finish(find: Finder, v: Value, rebuilt: Value, detections: Detections)
    returns (r: Result<Processed, Rejection>)
    requires rebuilt == MaskTree(find, v) && Groups(detections, Found(find, v))
    ensures r == Ok(Processed(Found(find, v) != [], MaskTree(find, v), detections))
  {
    GroupsEmpty(detections, Found(find, v));
    if detections == map[] {
      CleanTree(find, v);
      r := Ok(Processed(false, v, detections));
    } else {
      r := Ok(Processed(true, rebuilt, detections));
    }
  }
}

/**
 The length guard over nested data: every text leaf is held to the limits, containers are rebuilt,
 everything else passes through. The truncate strategy repairs; the block strategy reports the
 first offence.
 */
module LengthGuard {
  import opened Outcomes
  import opened Text
  import opened Truncation

  datatype Value =
    | Str(text: string)
    | List(items: seq<Value>)
    | Dict(entries: seq<Entry>)
    | Other(id: nat)

  /** A key of any type, known by its identity and by its text. */
  datatype Key = Key(id: nat, text: string)

  datatype Entry = Entry(key: Key, value: Value)

  datatype Reason =
    | TooDeep(depth: nat)
    | TooLarge(size: nat)
    | TokensAbove(tokens: nat)
    | LengthAbove(length: nat)
    | BelowMinimum(length: nat, tokens: nat)

  datatype Offence = Offence(reason: Reason, location: string)

  datatype ProcessResult = Done(value: Value, modified: bool) | Violation(offence: Offence)

  /** Which texts count as numbers, and are exempt. */
  type Numeric = string -> bool

  // ---- Places ----

  function Location(path: string): string {
    if path == "" then "root" else path
  }

  function ItemPath(path: string, i: nat): string {
    path + "[" + Decimal(i) + "]"
  }

  function KeyPath(path: string, key: Key): string {
    if path == "" then key.text else path + "." + key.text
  }

  // ---- Offences, in traversal order ----

  function TextOffences(t: string, cfg: Config, path: string, numeric: Numeric): seq<Offence> {
    var tokens := EstimateTokens(t, cfg.charsPerToken);
    var (below, above) := EvaluateTextLimits(|t|, tokens, cfg);
    if numeric(t) || (!below && !above) then []
    else if above && cfg.limitMode.Token? then [Offence(TokensAbove(tokens), Location(path))]
    else if above then [Offence(LengthAbove(|t|), Location(path))]
    else [Offence(BelowMinimum(|t|, tokens), Location(path))]
  }

  function Offences(v: Value, cfg: Config, path: string, depth: nat, numeric: Numeric): seq<Offence>
    decreases v
  {
    if depth > cfg.maxRecursionDepth then [Offence(TooDeep(depth), Location(path))]
    else
      match v
      case Str(t) => TextOffences(t, cfg, path, numeric)
      case List(items) =>
        if |items| > cfg.maxStructureSize then [Offence(TooLarge(|items|), Location(path))]
        else OffencesIn(items, cfg, path, depth, numeric)
      case Dict(entries) =>
        if |entries| > cfg.maxStructureSize then [Offence(TooLarge(|entries|), Location(path))]
        else OffencesAt(entries, cfg, path, depth, numeric)
      case Other(_) => []
  }

  function OffencesIn(items: seq<Value>, cfg: Config, path: string, depth: nat, numeric: Numeric): seq<Offence>
    decreases items
  {
    if items == [] then []
    else
      var i := |items| - 1;
      OffencesIn(items[..i], cfg, path, depth, numeric) + Offences(items[i], cfg, ItemPath(path, i), depth + 1, numeric)
  }

  function OffencesAt(entries: seq<Entry>, cfg: Config, path: string, depth: nat, numeric: Numeric): seq<Offence>
    decreases entries
  {
    if entries == [] then []
    else
      var i := |entries| - 1;
      var e := entries[i];
      assert e.value < e;
      OffencesAt(entries[..i], cfg, path, depth, numeric)
      + Offences(e.value, cfg, KeyPath(path, e.key), depth + 1, numeric)
  }

  // ---- Repair ----

  function TruncateLeaf(t: string, cfg: Config, numeric: Numeric): string {
    if numeric(t) || !EvaluateTextLimits(|t|, EstimateTokens(t, cfg.charsPerToken), cfg).1 then t
    else Truncated(t, cfg)
  }

  function TruncateTree(v: Value, cfg: Config, depth: nat, numeric: Numeric): Value
    decreases v
  {
    if depth > cfg.maxRecursionDepth then v
    else
      match v
      case Str(t) => Str(TruncateLeaf(t, cfg, numeric))
      case List(items) =>
        if |items| > cfg.maxStructureSize then v
        else List(seq(|items|, i requires 0 <= i < |items| => TruncateTree(items[i], cfg, depth + 1, numeric)))
      case Dict(entries) =>
        if |entries| > cfg.maxStructureSize then v
        else
          Dict(seq(|entries|, i requires 0 <= i < |entries| =>
                     Entry(entries[i].key, TruncateTree(entries[i].value, cfg, depth + 1, numeric))))
      case Other(_) => v
  }

  function TruncateItems(items: seq<Value>, cfg: Config, depth: nat, numeric: Numeric): seq<Value> {
    seq(|items|, i requires 0 <= i < |items| => TruncateTree(items[i], cfg, depth + 1, numeric))
  }

  function TruncateEntries(entries: seq<Entry>, cfg: Config, depth: nat, numeric: Numeric): seq<Entry> {
    seq(|entries|, i requires 0 <= i < |entries| =>
          Entry(entries[i].key, TruncateTree(entries[i].value, cfg, depth + 1, numeric)))
  }

  // ---- Processing ----

  /** Block: the first offence, or the value untouched. Truncate: the repaired value, and whether it differs. */
  ghost predicate Correct(r: ProcessResult, v: Value, cfg: Config, path: string, depth: nat, numeric: Numeric) {
    match cfg.strategy
    case Block =>
      var found := Offences(v, cfg, path, depth, numeric);
      r == if found == [] then Done(v, false) else Violation(found[0])
    case Truncate =>
      var repaired := TruncateTree(v, cfg, depth, numeric);
      r == Done(repaired, repaired != v)
  }

  method ProcessString(t: string, cfg: Config, path: string, depth: nat, numeric: Numeric) returns (r: ProcessResult)
    requires depth <= cfg.maxRecursionDepth
    ensures Correct(r, Str(t), cfg, path, depth, numeric)
    ensures cfg.strategy.Block? ==> (r.Done? <==> numeric(t) || WithinLimits(t, cfg))
    ensures cfg.strategy.Truncate? ==> r.Done? && r.value.Str? && CutTo(t, r.value.text, cfg, numeric)
  {
    hide Truncated, CutTo;
    LeafCut(t, cfg, numeric);
    if numeric(t) {
      return Done(Str(t), false);
    }
    var tokens := EstimateTokens(t, cfg.charsPerToken);
    var (below, above) := EvaluateTextLimits(|t|, tokens, cfg);
    if !below && !above {
      return Done(Str(t), false);
    }
    if cfg.strategy.Block? {
      if above && cfg.limitMode.Token? {
        return Violation(Offence(TokensAbove(tokens), Location(path)));
      } else if above {
        return Violation(Offence(LengthAbove(|t|), Location(path)));
      } else {
        return Violation(Offence(BelowMinimum(|t|, tokens), Location(path)));
      }
    }
    if above {
      var cut := TruncateText(t, cfg);
      return Done(Str(cut), cut != t);
    }
    r := Done(Str(t), false);
  }

  method ProcessStructuredData(v: Value, cfg: Config, path: string, depth: nat, numeric: Numeric)
    returns (r: ProcessResult)
    ensures Correct(r, v, cfg, path, depth, numeric)
    ensures cfg.strategy.Block? ==>
              && (r.Done? <==> Conforms(v, cfg, depth, numeric))
              && (r.Done? ==> r == Done(v, false))
              && (r.Violation? ==> FirstOffence(v, cfg, path, depth, numeric, r.offence))
    ensures cfg.strategy.Truncate? ==>
              && r.Done? && (r.modified <==> r.value != v)
              && SameShape(v, r.value, cfg, depth, (t, u) => CutTo(t, u, cfg, numeric))
    decreases v, 1
  {
    hide Conforms, FirstOffence, SameShape;
    BlockAcceptsIff(v, cfg, path, depth, numeric);
    ReportedIsFirst(v, cfg, path, depth, numeric);
    TruncateCuts(v, cfg, depth, numeric);
    if depth > cfg.maxRecursionDepth {
      return if cfg.strategy.Block? then Violation(Offence(TooDeep(depth), Location(path))) else Done(v, false);
    }
    match v {
      case Str(t) =>
        r := ProcessString(t, cfg, path, depth, numeric);
      case List(items) =>
        r := ProcessList(items, cfg, path, depth, numeric);
      case Dict(entries) =>
        r := ProcessDict(entries, cfg, path, depth, numeric);
      case Other(_) =>
        r := Done(v, false);
    }
  }

  method ProcessList(items: seq<Value>, cfg: Config, path: string, depth: nat, numeric: Numeric)
    returns (r: ProcessResult)
    requires depth <= cfg.maxRecursionDepth
    ensures Correct(r, List(items), cfg, path, depth, numeric)
    decreases items, 0
  {
    hide TextOffences, TruncateLeaf, ItemPath, KeyPath, Location, FirstOffence, Conforms, SameShape, CutTo;
    if |items| > cfg.maxStructureSize {
      return
        if cfg.strategy.Block? then Violation(Offence(TooLarge(|items|), Location(path)))
        else Done(List(items), false);
    }
    var modified := false;
    var rebuilt: seq<Value> := [];
    for i := 0 to |items|
      invariant cfg.strategy.Block? ==>
          OffencesIn(items[..i], cfg, path, depth, numeric) == [] && rebuilt == items[..i] && !modified
      invariant cfg.strategy.Truncate? ==>
          rebuilt == TruncateItems(items[..i], cfg, depth, numeric) && modified == (rebuilt != items[..i])
    {
      assert items[..i + 1][..i] == items[..i];
      var child := ProcessStructuredData(items[i], cfg, ItemPath(path, i), depth + 1, numeric);
      match child {
        case Violation(_) =>
          FirstInPrefix(items, i, cfg, path, depth, numeric);
          return child;
        case Done(value, changed) =>
          assert items[..i + 1] == items[..i] + [items[i]];
          rebuilt := rebuilt + [value];
          if changed {
            modified := true;
          }
      }
    }
    assert items[..|items|] == items;
    r := Done(List(rebuilt), modified);
  }

  method ProcessDict(entries: seq<Entry>, cfg: Config, path: string, depth: nat, numeric: Numeric)
    returns (r: ProcessResult)
    requires depth <= cfg.maxRecursionDepth
    ensures Correct(r, Dict(entries), cfg, path, depth, numeric)
    decreases entries, 0
  {
    hide TextOffences, TruncateLeaf, ItemPath, KeyPath, Location, FirstOffence, Conforms, SameShape, CutTo;
    if |entries| > cfg.maxStructureSize {
      return
        if cfg.strategy.Block? then Violation(Offence(TooLarge(|entries|), Location(path)))
        else Done(Dict(entries), false);
    }
    var modified := false;
    var rebuilt: seq<Entry> := [];
    for i := 0 to |entries|
      invariant cfg.strategy.Block? ==>
          OffencesAt(entries[..i], cfg, path, depth, numeric) == [] && rebuilt == entries[..i] && !modified
      invariant cfg.strategy.Truncate? ==>
          rebuilt == TruncateEntries(entries[..i], cfg, depth, numeric) && modified == (rebuilt != entries[..i])
    {
      var e := entries[i];
      assert e.value < e;
      assert entries[..i + 1][..i] == entries[..i];
      var child := ProcessStructuredData(e.value, cfg, KeyPath(path, e.key), depth + 1, numeric);
      match child {
        case Violation(_) =>
          FirstAtPrefix(entries, i, cfg, path, depth, numeric);
          return child;
        case Done(value, changed) =>
          assert entries[..i + 1] == entries[..i] + [e];
          rebuilt := rebuilt + [Entry(e.key, value)];
          if changed {
            modified := true;
          }
      }
    }
    assert entries[..|entries|] == entries;
    r := Done(Dict(rebuilt), modified);
  }

  /** If the first items are clean and the next is not, its first offence is the first of all. */
  lemma {:induction false} FirstInPrefix(items: seq<Value>, i: nat, cfg: Config, path: string, depth: nat,
                                         numeric: Numeric)
    requires i < |items| && OffencesIn(items[..i], cfg, path, depth, numeric) == []
    requires Offences(items[i], cfg, ItemPath(path, i), depth + 1, numeric) != []
    ensures OffencesIn(items, cfg, path, depth, numeric) != []
    ensures OffencesIn(items, cfg, path, depth, numeric)[0]
            == Offences(items[i], cfg, ItemPath(path, i), depth + 1, numeric)[0]
  {
    hide Offences, ItemPath, KeyPath;
    var n := |items| - 1;
    if i < n {
      assert items[..n][..i] == items[..i];
      FirstInPrefix(items[..n], i, cfg, path, depth, numeric);
    }
  }

  lemma {:induction false} FirstAtPrefix(entries: seq<Entry>, i: nat, cfg: Config, path: string, depth: nat,
                                         numeric: Numeric)
    requires i < |entries| && OffencesAt(entries[..i], cfg, path, depth, numeric) == []
    requires Offences(entries[i].value, cfg, KeyPath(path, entries[i].key), depth + 1, numeric) != []
    ensures OffencesAt(entries, cfg, path, depth, numeric) != []
    ensures OffencesAt(entries, cfg, path, depth, numeric)[0]
            == Offences(entries[i].value, cfg, KeyPath(path, entries[i].key), depth + 1, numeric)[0]
  {
    hide Offences, ItemPath, KeyPath;
    var n := |entries| - 1;
    if i < n {
      assert entries[..n][..i] == entries[..i];
      FirstAtPrefix(entries[..n], i, cfg, path, depth, numeric);
    }
  }

  // ---- Block: accepted means within limits everywhere ----

  /** Estimated tokens: one for every whole group of characters. */
  function Tokens(t: string, cfg: Config): nat {
    |t| / Max(cfg.charsPerToken, 1)
  }

  /** Length or estimated tokens, as the mode says, lie between the configured minimum and maximum. */
  predicate WithinLimits(t: string, cfg: Config) {
    match cfg.limitMode
    case Character => cfg.minChars <= |t| && (cfg.maxChars.Some? ==> |t| <= cfg.maxChars.value)
    case Token => cfg.minTokens <= Tokens(t, cfg) && (cfg.maxTokens.Some? ==> Tokens(t, cfg) <= cfg.maxTokens.value)
  }

  predicate TextConforms(t: string, cfg: Config, numeric: Numeric) {
    numeric(t) || WithinLimits(t, cfg)
  }

  /** Every node is within the limits. */
  ghost predicate Conforms(v: Value, cfg: Config, depth: nat, numeric: Numeric) {
    depth <= cfg.maxRecursionDepth &&
    match v
    case Str(t) => TextConforms(t, cfg, numeric)
    case List(items) =>
      |items| <= cfg.maxStructureSize && forall i :: 0 <= i < |items| ==> Conforms(items[i], cfg, depth + 1, numeric)
    case Dict(entries) =>
      && |entries| <= cfg.maxStructureSize
      && forall i :: 0 <= i < |entries| ==> Conforms(entries[i].value, cfg, depth + 1, numeric)
    case Other(_) => true
  }

  /** There is an offence to report exactly when some node breaks a limit. */
  lemma {:induction false} BlockAcceptsIff(v: Value, cfg: Config, path: string, depth: nat, numeric: Numeric)
    ensures Offences(v, cfg, path, depth, numeric) == [] <==> Conforms(v, cfg, depth, numeric)
    decreases v, 1
  {
    match v {
      case Str(_) =>
      case List(items) =>
        ItemsAcceptedIff(items, cfg, path, depth, numeric);
      case Dict(entries) =>
        EntriesAcceptedIff(entries, cfg, path, depth, numeric);
      case Other(_) =>
    }
  }

  lemma {:induction false} ItemsAcceptedIff(items: seq<Value>, cfg: Config, path: string, depth: nat, numeric: Numeric)
    ensures OffencesIn(items, cfg, path, depth, numeric) == []
            <==> forall i :: 0 <= i < |items| ==> Conforms(items[i], cfg, depth + 1, numeric)
    decreases items, 0
  {
    hide Offences, Conforms, ItemPath, KeyPath, Decimal;
    if items != [] {
      var n := |items| - 1;
      ItemsAcceptedIff(items[..n], cfg, path, depth, numeric);
      BlockAcceptsIff(items[n], cfg, ItemPath(path, n), depth + 1, numeric);
      assert forall i :: 0 <= i < n ==> items[..n][i] == items[i];
    }
  }

  lemma {:induction false} EntriesAcceptedIff(entries: seq<Entry>, cfg: Config, path: string, depth: nat,
                                              numeric: Numeric)
    ensures OffencesAt(entries, cfg, path, depth, numeric) == []
            <==> forall i :: 0 <= i < |entries| ==> Conforms(entries[i].value, cfg, depth + 1, numeric)
    decreases entries, 0
  {
    hide Offences, Conforms, ItemPath, KeyPath, Decimal;
    if entries != [] {
      var n := |entries| - 1;
      var e := entries[n];
      assert e.value < e;
      EntriesAcceptedIff(entries[..n], cfg, path, depth, numeric);
      BlockAcceptsIff(e.value, cfg, KeyPath(path, e.key), depth + 1, numeric);
      assert forall i :: 0 <= i < n ==> entries[..n][i] == entries[i];
    }
  }

  // ---- Block: which offence is reported ----

  /** This text offends for this reason; being too long comes before being too short. */
  predicate TextOffends(t: string, cfg: Config, reason: Reason) {
    match reason
    case TokensAbove(tokens) =>
      cfg.limitMode.Token? && cfg.maxTokens.Some? && tokens == Tokens(t, cfg) > cfg.maxTokens.value
    case LengthAbove(length) =>
      cfg.limitMode.Character? && cfg.maxChars.Some? && length == |t| > cfg.maxChars.value
    case BelowMinimum(length, tokens) =>
      && length == |t| && tokens == Tokens(t, cfg)
      && (cfg.limitMode.Character? ==> length < cfg.minChars && (cfg.maxChars.Some? ==> length <= cfg.maxChars.value))
      && (cfg.limitMode.Token? ==> tokens < cfg.minTokens && (cfg.maxTokens.Some? ==> tokens <= cfg.maxTokens.value))
    case TooDeep(_) => false
    case TooLarge(_) => false
  }

  /** The node itself offends. */
  predicate NodeOffends(v: Value, cfg: Config, depth: nat, numeric: Numeric, reason: Reason) {
    match reason
    case TooDeep(at) => at == depth > cfg.maxRecursionDepth
    case TooLarge(size) =>
      && depth <= cfg.maxRecursionDepth && size > cfg.maxStructureSize
      && ((v.List? && size == |v.items|) || (v.Dict? && size == |v.entries|))
    case _ => depth <= cfg.maxRecursionDepth && v.Str? && !numeric(v.text) && TextOffends(v.text, cfg, reason)
  }

  /**
   `o` is the first offence below `path`, outside in and left to right: nothing before it offends,
   and its location spells the way to it.
   */
  ghost predicate FirstOffence(v: Value, cfg: Config, path: string, depth: nat, numeric: Numeric, o: Offence)
    decreases v
  {
    || (NodeOffends(v, cfg, depth, numeric, o.reason) && o.location == if path == "" then "root" else path)
    || (depth <= cfg.maxRecursionDepth && v.List? && |v.items| <= cfg.maxStructureSize
        && FirstOffenceIn(v.items, cfg, path, depth, numeric, o))
    || (depth <= cfg.maxRecursionDepth && v.Dict? && |v.entries| <= cfg.maxStructureSize
        && FirstOffenceUnder(v.entries, cfg, path, depth, numeric, o))
  }

  ghost predicate FirstOffenceIn(items: seq<Value>, cfg: Config, path: string, depth: nat, numeric: Numeric, o: Offence)
    decreases items, 0
  {
    exists i :: 0 <= i < |items|
      && FirstOffence(items[i], cfg, path + "[" + Decimal(i) + "]", depth + 1, numeric, o)
      && forall j :: 0 <= j < i ==> Conforms(items[j], cfg, depth + 1, numeric)
  }

  ghost predicate FirstOffenceUnder(entries: seq<Entry>, cfg: Config, path: string, depth: nat, numeric: Numeric,
                                    o: Offence)
    decreases entries, 0
  {
    exists i :: 0 <= i < |entries|
      && (var e := entries[i];
          assert e.value < e;
          FirstOffence(e.value, cfg, if path == "" then e.key.text else path + "." + e.key.text, depth + 1, numeric, o))
      && forall j :: 0 <= j < i ==> Conforms(entries[j].value, cfg, depth + 1, numeric)
  }

  lemma TextOffenceIs(t: string, cfg: Config, path: string, numeric: Numeric)
    ensures forall o :: o in TextOffences(t, cfg, path, numeric) ==>
              && !numeric(t) && TextOffends(t, cfg, o.reason) && !o.reason.TooDeep? && !o.reason.TooLarge?
              && o.location == if path == "" then "root" else path
  {
  }

  /** The offence reported is the first. */
  lemma {:induction false} ReportedIsFirst(v: Value, cfg: Config, path: string, depth: nat, numeric: Numeric)
    ensures var found := Offences(v, cfg, path, depth, numeric);
            found != [] ==> FirstOffence(v, cfg, path, depth, numeric, found[0])
    decreases v, 1
  {
    hide TextOffences, TextOffends;
    match v {
      case Str(t) =>
        TextOffenceIs(t, cfg, path, numeric);
      case List(items) =>
        ReportedFirstIn(items, cfg, path, depth, numeric);
      case Dict(entries) =>
        ReportedFirstUnder(entries, cfg, path, depth, numeric);
      case Other(_) =>
    }
  }

  lemma {:induction false} ReportedFirstIn(items: seq<Value>, cfg: Config, path: string, depth: nat, numeric: Numeric)
    ensures var found := OffencesIn(items, cfg, path, depth, numeric);
            found != [] ==> FirstOffenceIn(items, cfg, path, depth, numeric, found[0])
    decreases items, 0
  {
    hide Offences, FirstOffence, Conforms, Decimal;
    if items != [] {
      var n := |items| - 1;
      ReportedFirstIn(items[..n], cfg, path, depth, numeric);
      ReportedIsFirst(items[n], cfg, ItemPath(path, n), depth + 1, numeric);
      ItemsAcceptedIff(items[..n], cfg, path, depth, numeric);
      assert forall i :: 0 <= i < n ==> items[..n][i] == items[i];
    }
  }

  lemma {:induction false} ReportedFirstUnder(entries: seq<Entry>, cfg: Config, path: string, depth: nat,
                                              numeric: Numeric)
    ensures var found := OffencesAt(entries, cfg, path, depth, numeric);
            found != [] ==> FirstOffenceUnder(entries, cfg, path, depth, numeric, found[0])
    decreases entries, 0
  {
    hide Offences, FirstOffence, Conforms, Decimal;
    if entries != [] {
      var n := |entries| - 1;
      var e := entries[n];
      assert e.value < e;
      ReportedFirstUnder(entries[..n], cfg, path, depth, numeric);
      ReportedIsFirst(e.value, cfg, KeyPath(path, e.key), depth + 1, numeric);
      EntriesAcceptedIff(entries[..n], cfg, path, depth, numeric);
      assert forall i :: 0 <= i < n ==> entries[..n][i] == entries[i];
    }
  }

  // ---- Truncate: what the repaired tree is ----

  /** Only texts may differ, and only where `leaf` allows it; what lies beyond the limits is untouched. */
  ghost predicate SameShape(v: Value, w: Value, cfg: Config, depth: nat, leaf: (string, string) -> bool) {
    if depth > cfg.maxRecursionDepth then w == v
    else
      match v
      case Str(t) => w.Str? && leaf(t, w.text)
      case List(items) =>
        && w.List? && |w.items| == |items|
        && if |items| > cfg.maxStructureSize then w == v
           else forall i :: 0 <= i < |items| ==> SameShape(items[i], w.items[i], cfg, depth + 1, leaf)
      case Dict(entries) =>
        && w.Dict? && |w.entries| == |entries|
        && if |entries| > cfg.maxStructureSize then w == v
           else forall i :: 0 <= i < |entries| ==>
             && w.entries[i].key == entries[i].key
             && SameShape(entries[i].value, w.entries[i].value, cfg, depth + 1, leaf)
      case Other(_) => w == v
  }

  /**
   A text as it was, if exempt or short enough; otherwise a prefix and the ellipsis, or a hard cut,
   of at most `max` characters.
   */
  ghost predicate Shortened(t: string, u: string, max: nat, cfg: Config, numeric: Numeric) {
    if numeric(t) || |t| <= max then u == t
    else
      && |u| <= max
      && ((|cfg.ellipsis| >= max && u == t[..max])
          || (|cfg.ellipsis| < max && exists k :: 0 <= k <= max - |cfg.ellipsis| && u == t[..k] + cfg.ellipsis))
  }

  /** In character mode every text the guard reaches is shortened to the limit and nothing else changes. */
  lemma {:induction false} TruncateShortens(v: Value, cfg: Config, depth: nat, numeric: Numeric, max: nat)
    requires cfg.limitMode.Character? && cfg.maxChars == Some(max) && max > 0
    ensures SameShape(v, TruncateTree(v, cfg, depth, numeric), cfg, depth, (t, u) => Shortened(t, u, max, cfg, numeric))
  {
    hide Truncated;
    match v {
      case Str(t) =>
        if max < |t| {
          TruncatedFits(t, cfg, max);
        }
      case List(items) =>
        forall i | 0 <= i < |items|
          ensures SameShape(items[i], TruncateTree(items[i], cfg, depth + 1, numeric), cfg, depth + 1,
                            (t, u) => Shortened(t, u, max, cfg, numeric))
        {
          TruncateShortens(items[i], cfg, depth + 1, numeric, max);
        }
      case Dict(entries) =>
        forall i | 0 <= i < |entries|
          ensures SameShape(entries[i].value, TruncateTree(entries[i].value, cfg, depth + 1, numeric), cfg, depth + 1,
                            (t, u) => Shortened(t, u, max, cfg, numeric))
        {
          TruncateShortens(entries[i].value, cfg, depth + 1, numeric, max);
        }
      case Other(_) =>
    }
  }

  /** What truncation makes of a reached text, in either mode. */
  ghost predicate CutTo(t: string, u: string, cfg: Config, numeric: Numeric) {
    match cfg.limitMode
    case Character =>
      if cfg.maxChars.None? || cfg.maxChars.value == 0 then u == t
      else Shortened(t, u, cfg.maxChars.value, cfg, numeric) && WordRule(t, u, cfg, cfg.maxChars.value, numeric)
    case Token =>
      if numeric(t) || cfg.maxTokens.None? || cfg.maxTokens.value == 0 || Tokens(t, cfg) <= cfg.maxTokens.value
      then u == t
      else TokenCutTo(t, u, cfg, cfg.maxTokens.value * Max(cfg.charsPerToken, 1))
  }

  /** Where there is room for the ellipsis, the prefix in front of it ends as the word rule says. */
  ghost predicate WordRule(t: string, u: string, cfg: Config, max: nat, numeric: Numeric) {
    !numeric(t) && |t| > max > |cfg.ellipsis| ==>
      exists k: nat :: Kept(t, k, max - |cfg.ellipsis|, max, cfg) && u == t[..k] + cfg.ellipsis
  }

  /** A prefix within the budget and the byte cap, ending as the word rule says, and the ellipsis. */
  ghost predicate TokenCutTo(t: string, u: string, cfg: Config, budget: nat) {
    exists k: nat, room: nat :: CutWithin(t, u, cfg, budget, k, room)
  }

  predicate CutWithin(t: string, u: string, cfg: Config, budget: nat, k: nat, room: nat) {
    && room <= budget && room <= |t| && Bytes(t[..room]) <= cfg.maxTextLength
    && (room == budget || room == |t| || Bytes(t[..room + 1]) > cfg.maxTextLength)
    && Kept(t, k, room, room, cfg) && u == t[..k] + cfg.ellipsis
  }

  lemma LeafCut(t: string, cfg: Config, numeric: Numeric)
    ensures CutTo(t, TruncateLeaf(t, cfg, numeric), cfg, numeric)
  {
    match cfg.limitMode {
      case Character =>
        hide Truncated;
        CharacterCut(t, cfg, numeric);
      case Token =>
        hide Truncated;
        TokenTruncated(t, cfg);
        if !numeric(t) && OverBudget(t, cfg) {
          TokenLeafCut(t, cfg);
        }
    }
  }

  lemma CharacterCut(t: string, cfg: Config, numeric: Numeric)
    requires cfg.limitMode.Character?
    ensures CutTo(t, TruncateLeaf(t, cfg, numeric), cfg, numeric)
  {
    if cfg.maxChars.Some? && 0 < cfg.maxChars.value < |t| {
      TruncatedFits(t, cfg, cfg.maxChars.value);
    }
  }

  lemma TokenLeafCut(t: string, cfg: Config)
    requires cfg.limitMode.Token? && OverBudget(t, cfg)
    ensures TokenCutTo(t, t[..TokenCut(t, cfg)] + cfg.ellipsis, cfg, Budget(cfg))
  {
    hide Bytes, Truncated, TokenCut, Kept;
    var k, room := TokenCut(t, cfg), Room(t, cfg);
    CutIsKept(t, cfg, k);
    CharsWithinFits(t, cfg.maxTextLength);
    OffsetGrows(t, room, CharsWithin(t, cfg.maxTextLength));
    assert CutWithin(t, t[..k] + cfg.ellipsis, cfg, Budget(cfg), k, room);
  }

  /** In either mode every text the guard reaches is cut so, and nothing else changes. */
  lemma {:induction false} TruncateCuts(v: Value, cfg: Config, depth: nat, numeric: Numeric)
    ensures SameShape(v, TruncateTree(v, cfg, depth, numeric), cfg, depth, (t, u) => CutTo(t, u, cfg, numeric))
  {
    hide TruncateLeaf, CutTo;
    match v {
      case Str(t) =>
        LeafCut(t, cfg, numeric);
      case List(items) =>
        forall i | 0 <= i < |items|
          ensures SameShape(items[i], TruncateTree(items[i], cfg, depth + 1, numeric), cfg, depth + 1,
                            (t, u) => CutTo(t, u, cfg, numeric))
        {
          TruncateCuts(items[i], cfg, depth + 1, numeric);
        }
      case Dict(entries) =>
        forall i | 0 <= i < |entries|
          ensures SameShape(entries[i].value, TruncateTree(entries[i].value, cfg, depth + 1, numeric), cfg, depth + 1,
                            (t, u) => CutTo(t, u, cfg, numeric))
        {
          TruncateCuts(entries[i].value, cfg, depth + 1, numeric);
        }
      case Other(_) =>
    }
  }

  /** In either mode, shape and keys stay, and every text is its own truncation. */
  lemma {:induction false} TruncateKeepsShape(v: Value, cfg: Config, depth: nat, numeric: Numeric)
    ensures SameShape(v, TruncateTree(v, cfg, depth, numeric), cfg, depth, (t, u) => u == TruncateLeaf(t, cfg, numeric))
  {
    hide TruncateLeaf;
    match v {
      case Str(_) =>
      case List(items) =>
        forall i | 0 <= i < |items|
          ensures SameShape(items[i], TruncateTree(items[i], cfg, depth + 1, numeric), cfg, depth + 1,
                            (t, u) => u == TruncateLeaf(t, cfg, numeric))
        {
          TruncateKeepsShape(items[i], cfg, depth + 1, numeric);
        }
      case Dict(entries) =>
        forall i | 0 <= i < |entries|
          ensures SameShape(entries[i].value, TruncateTree(entries[i].value, cfg, depth + 1, numeric), cfg, depth + 1,
                            (t, u) => u == TruncateLeaf(t, cfg, numeric))
        {
          TruncateKeepsShape(entries[i].value, cfg, depth + 1, numeric);
        }
      case Other(_) =>
    }
  }

  /** A text already shortened is left alone. */
  lemma LeafTwice(t: string, cfg: Config, numeric: Numeric)
    requires cfg.limitMode.Character?
    ensures TruncateLeaf(TruncateLeaf(t, cfg, numeric), cfg, numeric) == TruncateLeaf(t, cfg, numeric)
  {
    hide Truncated;
    TruncatedTwice(t, cfg);
  }

  /** In character mode a second pass is the identity, so it reports no modification. */
  lemma {:induction false} SecondPassIdentity(v: Value, cfg: Config, depth: nat, numeric: Numeric)
    requires cfg.limitMode.Character?
    ensures TruncateTree(TruncateTree(v, cfg, depth, numeric), cfg, depth, numeric)
            == TruncateTree(v, cfg, depth, numeric)
  {
    hide TruncateLeaf;
    match v {
      case Str(t) =>
        LeafTwice(t, cfg, numeric);
      case List(items) =>
        forall i | 0 <= i < |items|
          ensures TruncateTree(TruncateTree(items[i], cfg, depth + 1, numeric), cfg, depth + 1, numeric)
                  == TruncateTree(items[i], cfg, depth + 1, numeric)
        {
          SecondPassIdentity(items[i], cfg, depth + 1, numeric);
        }
      case Dict(entries) =>
        forall i | 0 <= i < |entries|
          ensures TruncateTree(TruncateTree(entries[i].value, cfg, depth + 1, numeric), cfg, depth + 1, numeric)
                  == TruncateTree(entries[i].value, cfg, depth + 1, numeric)
        {
          SecondPassIdentity(entries[i].value, cfg, depth + 1, numeric);
        }
      case Other(_) =>
    }
  }

  // ---- Between the strategies ----

  /** What truncation cannot repair: the structure and texts that are too short. */
  predicate Unrepairable(o: Offence) {
    o.reason.TooDeep? || o.reason.TooLarge? || o.reason.BelowMinimum?
  }

  lemma LeafRepaired(t: string, cfg: Config, path: string, numeric: Numeric, max: nat)
    requires cfg.limitMode.Character? && cfg.maxChars == Some(max) && max > 0
    ensures forall o :: o in TextOffences(TruncateLeaf(t, cfg, numeric), cfg, path, numeric) ==> Unrepairable(o)
  {
    hide Truncated;
    if max < |t| {
      TruncatedFits(t, cfg, max);
    }
  }

  /** What truncation leaves, the block strategy would only refuse for what cannot be repaired. */
  lemma {:induction false} TruncatedPassesBlock(v: Value, cfg: Config, path: string, depth: nat, numeric: Numeric,
                                                max: nat)
    requires cfg.limitMode.Character? && cfg.maxChars == Some(max) && max > 0
    ensures forall o :: o in Offences(TruncateTree(v, cfg, depth, numeric), cfg, path, depth, numeric) ==>
              Unrepairable(o)
    decreases v, 1
  {
    hide TextOffences, TruncateLeaf;
    match v {
      case Str(t) =>
        LeafRepaired(t, cfg, path, numeric, max);
      case List(items) =>
        if depth <= cfg.maxRecursionDepth && |items| <= cfg.maxStructureSize {
          ItemsPassBlock(items, cfg, path, depth, numeric, max);
        }
      case Dict(entries) =>
        if depth <= cfg.maxRecursionDepth && |entries| <= cfg.maxStructureSize {
          EntriesPassBlock(entries, cfg, path, depth, numeric, max);
        }
      case Other(_) =>
    }
  }

  lemma {:induction false} ItemsPassBlock(items: seq<Value>, cfg: Config, path: string, depth: nat, numeric: Numeric,
                                          max: nat)
    requires cfg.limitMode.Character? && cfg.maxChars == Some(max) && max > 0
    ensures forall o :: o in OffencesIn(TruncateItems(items, cfg, depth, numeric), cfg, path, depth, numeric) ==>
              Unrepairable(o)
    decreases items, 0
  {
    hide Offences, TruncateTree;
    if items != [] {
      var n := |items| - 1;
      ItemsPassBlock(items[..n], cfg, path, depth, numeric, max);
      TruncatedPassesBlock(items[n], cfg, ItemPath(path, n), depth + 1, numeric, max);
      assert TruncateItems(items, cfg, depth, numeric)[..n] == TruncateItems(items[..n], cfg, depth, numeric);
    }
  }

  lemma {:induction false} EntriesPassBlock(entries: seq<Entry>, cfg: Config, path: string, depth: nat,
                                            numeric: Numeric, max: nat)
    requires cfg.limitMode.Character? && cfg.maxChars == Some(max) && max > 0
    ensures forall o :: o in OffencesAt(TruncateEntries(entries, cfg, depth, numeric), cfg, path, depth, numeric) ==>
              Unrepairable(o)
    decreases entries, 0
  {
    hide Offences, TruncateTree;
    if entries != [] {
      var n := |entries| - 1;
      var e := entries[n];
      assert e.value < e;
      EntriesPassBlock(entries[..n], cfg, path, depth, numeric, max);
      TruncatedPassesBlock(e.value, cfg, KeyPath(path, e.key), depth + 1, numeric, max);
      assert TruncateEntries(entries, cfg, depth, numeric)[..n] == TruncateEntries(entries[..n], cfg, depth, numeric);
    }
  }
}

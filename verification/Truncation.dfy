/**
 Truncation of one text. The code cuts at byte offsets and steps back to a character or word
 boundary; what it returns is described here in characters.
 */
module Truncation {
  import Arithmetic
  import opened Outcomes
  import opened Text

  datatype LimitMode = Character | Token

  datatype Strategy = Truncate | Block

  datatype Config = Config(
    minChars: nat, maxChars: Option<nat>, minTokens: nat, maxTokens: Option<nat>, charsPerToken: nat,
    limitMode: LimitMode, strategy: Strategy, ellipsis: string, wordBoundary: bool,
    maxTextLength: nat, maxStructureSize: nat, maxRecursionDepth: nat)

  predicate IsBoundaryChar(c: char) {
    || c == ' ' || c == '\t' || c == '\n' || c == '\r' || c == '.' || c == ',' || c == ';' || c == ':' || c == '!'
    || c == '?' || c == '-' || c == '\U{2014}' || c == '\U{2013}' || c == '/' || c == '\\' || c == '(' || c == ')'
    || c == '[' || c == ']' || c == '{' || c == '}'
  }

  /** White space other than exotic kinds, punctuation, dashes, slashes and brackets. */
  lemma BoundaryCharIff(c: char)
    ensures IsBoundaryChar(c) <==>
              c in {' ', '\t', '\n', '\r'} + {'.', ',', ';', ':', '!', '?'} + {'-', '\U{2014}', '\U{2013}'}
                   + {'/', '\\'} + {'(', ')', '[', ']', '{', '}'}
  {
  }

  // ---- Byte offsets ----

  /** Byte offset of the `k`-th character. */
  function Offset(s: string, k: nat): nat
    requires k <= |s|
  {
    Bytes(s[..k])
  }

  /** The character that starts at byte `b`, if one does; the end of the text counts. */
  function IndexAt(s: string, b: nat): Option<nat> {
    if s == [] then (if b == 0 then Some(0) else None)
    else if b == Bytes(s) then Some(|s|)
    else IndexAt(s[..|s| - 1], b)
  }

  predicate IsCharBoundary(s: string, b: nat) {
    IndexAt(s, b).Some?
  }

  /** `&s[..b]`, which is only defined on character boundaries. */
  function Slice(s: string, b: nat): string
    requires IsCharBoundary(s, b)
  {
    IndexIsOffset(s, b);
    s[..IndexAt(s, b).value]
  }

  lemma {:induction false} IndexIsOffset(s: string, b: nat)
    requires IsCharBoundary(s, b)
    ensures IndexAt(s, b).value <= |s| && Offset(s, IndexAt(s, b).value) == b
  {
    if s != [] && b != Bytes(s) {
      var front, k := s[..|s| - 1], IndexAt(s, b).value;
      IndexIsOffset(front, b);
      assert front[..k] == s[..k];
    } else {
      assert s[..|s|] == s;
    }
  }

  lemma {:induction false} OffsetGrows(s: string, j: nat, k: nat)
    requires j <= k <= |s|
    ensures Offset(s, j) + (k - j) <= Offset(s, k)
  {
    if j < k {
      OffsetGrows(s, j, k - 1);
      assert s[..k][..k - 1] == s[..k - 1];
    }
  }

  /** Every character starts on a boundary, at its own index. */
  lemma {:induction false} OffsetIsBoundary(s: string, k: nat)
    requires k <= |s|
    ensures IndexAt(s, Offset(s, k)) == Some(k)
  {
    assert s[..|s|] == s;
    if k < |s| {
      var front := s[..|s| - 1];
      OffsetGrows(s, k, |s|);
      OffsetIsBoundary(front, k);
      assert front[..k] == s[..k];
    }
  }

  /** How many characters fit in the first `b` bytes. */
  function CharsWithin(s: string, b: nat): nat {
    if s == [] || Bytes(s) <= b then |s| else CharsWithin(s[..|s| - 1], b)
  }

  lemma {:induction false} CharsWithinFits(s: string, b: nat)
    ensures CharsWithin(s, b) <= |s| && Offset(s, CharsWithin(s, b)) <= b
    ensures CharsWithin(s, b) < |s| ==> b < Offset(s, CharsWithin(s, b) + 1)
  {
    assert s[..|s|] == s;
    if s != [] && Bytes(s) > b {
      var front := s[..|s| - 1];
      CharsWithinFits(front, b);
      var k := CharsWithin(front, b);
      assert front[..k] == s[..k];
      assert k < |front| ==> front[..k + 1] == s[..k + 1];
      assert k == |front| ==> s[..k + 1] == s;
    }
  }

  /** Steps down to the nearest boundary: the end of the last character that fits. */
  method SnapToCharBoundary(s: string, cut0: nat) returns (cut: nat)
    ensures cut == Offset(s, Min(CharsWithin(s, cut0), |s|)) <= cut0
  {
    CharsWithinFits(s, cut0);
    ghost var k := CharsWithin(s, cut0);
    OffsetIsBoundary(s, k);
    OffsetIsBoundary(s, 0);
    cut := cut0;
    while cut > 0 && !IsCharBoundary(s, cut)
      invariant Offset(s, k) <= cut <= cut0
    {
      cut := cut - 1;
    }
    if IsCharBoundary(s, cut) {
      IndexIsOffset(s, cut);
      var j := IndexAt(s, cut).value;
      if k < j {
        OffsetGrows(s, k + 1, j);
      } else if j < k {
        OffsetGrows(s, j, k);
      }
    }
  }

  // ---- Word boundaries ----

  /** `k` follows the last boundary character among the characters `low..i`, or is `otherwise` if there is none. */
  predicate AfterLastBoundary(s: string, i: nat, low: nat, otherwise: nat, k: nat)
    requires low <= i <= |s|
  {
    || (k == otherwise && forall j :: low <= j < i ==> !IsBoundaryChar(s[j]))
    || (low < k <= i && IsBoundaryChar(s[k - 1]) && forall j :: k <= j < i ==> !IsBoundaryChar(s[j]))
  }

  /** Where to cut within the last `back` of the first `cut` characters. */
  function WordCut(s: string, cut: nat, back: nat): (k: nat)
    requires cut <= |s|
    ensures k <= cut && AfterLastBoundary(s, cut, SatSub(cut, back), cut, k)
  {
    LastBoundary(s, cut, SatSub(cut, back), cut)
  }

  /** Searches below `i`, down to `low`. */
  function LastBoundary(s: string, i: nat, low: nat, otherwise: nat): (k: nat)
    requires low <= i <= |s|
    ensures AfterLastBoundary(s, i, low, otherwise, k)
    decreases i
  {
    if i == low then otherwise
    else if IsBoundaryChar(s[i - 1]) then i
    else LastBoundary(s, i - 1, low, otherwise)
  }

  method FindWordBoundary(value: string, cut0: nat, maxChars: nat) returns (r: nat)
    requires IsCharBoundary(value, cut0)
    ensures r == Offset(value, WordCut(value, CutIndex(value, cut0), maxChars / 5))
  {
    IndexIsOffset(value, cut0);
    ghost var k0 := IndexAt(value, cut0).value;
    if value == [] || cut0 == 0 {
      if k0 > 0 {
        OffsetGrows(value, 0, k0);
      }
      return cut0;
    }
    OffsetGrows(value, k0, |value|);
    assert value[..|value|] == value;
    var cut := Min(cut0, Bytes(value));
    cut := SnapToCharBoundary(value, cut);
    ExactFit(value, k0);
    OffsetIsBoundary(value, k0);
    var chars := Slice(value, cut);
    assert chars == value[..k0];
    var searchBack := maxChars / 5;
    var minSearch := SatSub(|chars|, searchBack);
    var i := |chars|;
    while i > minSearch
      invariant minSearch <= i <= |chars|
      invariant LastBoundary(value, i, minSearch, k0) == LastBoundary(value, k0, minSearch, k0)
    {
      i := i - 1;
      if IsBoundaryChar(chars[i]) {
        assert chars[..i + 1] == value[..i + 1];
        return Bytes(chars[..i + 1]);
      }
    }
    r := cut;
  }

  /** The character index of a boundary. */
  function CutIndex(s: string, b: nat): (k: nat)
    ensures k <= |s|
  {
    if IsCharBoundary(s, b) then
      IndexIsOffset(s, b);
      IndexAt(s, b).value
    else 0
  }

  /** Exactly `k` characters fit in the bytes of the first `k`. */
  lemma ExactFit(s: string, k: nat)
    requires k <= |s|
    ensures CharsWithin(s, Offset(s, k)) == k
  {
    CharsWithinFits(s, Offset(s, k));
    var j := CharsWithin(s, Offset(s, k));
    if j < k {
      OffsetGrows(s, j + 1, k);
    } else if k < j {
      OffsetGrows(s, k, j);
    }
  }

  // ---- Truncation ----

  function EstimateTokens(text: string, charsPerToken: nat): nat {
    |text| / Max(charsPerToken, 1)
  }

  /** (below minimum, above maximum) */
  function EvaluateTextLimits(length: nat, tokens: nat, cfg: Config): (bool, bool) {
    match cfg.limitMode
    case Character => (cfg.minChars > 0 && length < cfg.minChars, cfg.maxChars.Some? && length > cfg.maxChars.value)
    case Token => (cfg.minTokens > 0 && tokens < cfg.minTokens, cfg.maxTokens.Some? && tokens > cfg.maxTokens.value)
  }

  /** How many characters truncation keeps in front of the ellipsis. */
  function KeptChars(value: string, budget: nat, window: nat, cfg: Config): (k: nat)
    ensures k <= |value| && k <= budget
  {
    var cut := Min(budget, |value|);
    if cfg.wordBoundary then WordCut(value, cut, window / 5) else cut
  }

  function Truncated(value: string, cfg: Config): string {
    match cfg.limitMode
    case Character =>
      if cfg.maxChars.None? || cfg.maxChars.value == 0 || |value| <= cfg.maxChars.value then value
      else if |cfg.ellipsis| >= cfg.maxChars.value then value[..cfg.maxChars.value]
      else value[..KeptChars(value, cfg.maxChars.value - |cfg.ellipsis|, cfg.maxChars.value, cfg)] + cfg.ellipsis
    case Token =>
      var cpt := Max(cfg.charsPerToken, 1);
      if cfg.maxTokens.None? || cfg.maxTokens.value == 0 || |value| / cpt <= cfg.maxTokens.value then value
      else
        CharsWithinFits(value, cfg.maxTextLength);
        var effective := value[..CharsWithin(value, cfg.maxTextLength)];
        var budget := cfg.maxTokens.value * cpt;
        effective[..KeptChars(effective, budget, Min(budget, |effective|), cfg)] + cfg.ellipsis
  }

  /** `char_indices().nth(n)`, or the end of the text. */
  function NthOffset(s: string, n: nat): nat {
    if n < |s| then Offset(s, n) else Bytes(s)
  }

  lemma NthIsBoundary(s: string, n: nat)
    ensures NthOffset(s, n) == Offset(s, Min(n, |s|)) && IndexAt(s, NthOffset(s, n)) == Some(Min(n, |s|))
  {
    assert s[..|s|] == s;
    OffsetIsBoundary(s, Min(n, |s|));
  }

  method CapAtMaxTextLength(value: string, maxTextLength: nat) returns (capped: string)
    ensures capped == value[..Min(CharsWithin(value, maxTextLength), |value|)]
  {
    CharsWithinFits(value, maxTextLength);
    if Bytes(value) > maxTextLength {
      var cut := SnapToCharBoundary(value, maxTextLength);
      OffsetIsBoundary(value, CharsWithin(value, maxTextLength));
      capped := Slice(value, cut);
    } else {
      assert value[..|value|] == value;
      capped := value;
    }
  }

  method TruncateText(value: string, cfg: Config) returns (r: string)
    ensures r == Truncated(value, cfg)
  {
    match cfg.limitMode {
      case Token =>
        if cfg.maxTokens.None? || cfg.maxTokens.value == 0 {
          return value;
        }
        var cpt := Max(cfg.charsPerToken, 1);
        if EstimateTokens(value, cpt) <= cfg.maxTokens.value {
          return value;
        }
        CharsWithinFits(value, cfg.maxTextLength);
        var effective := CapAtMaxTextLength(value, cfg.maxTextLength);
        var maxChars := cfg.maxTokens.value * cpt;
        var cut := NthOffset(effective, maxChars);
        NthIsBoundary(effective, maxChars);
        if cfg.wordBoundary && cut > 0 {
          var cutChars := |Slice(effective, cut)|;
          cut := FindWordBoundary(effective, cut, cutChars);
          ExactFit(effective, WordCut(effective, cutChars, cutChars / 5));
          cut := SnapToCharBoundary(effective, cut);
        }
        OffsetIsBoundary(effective, KeptChars(effective, maxChars, Min(maxChars, |effective|), cfg));
        ZeroOffset(effective, Min(maxChars, |effective|));
        r := Slice(effective, cut) + cfg.ellipsis;
      case Character =>
        if cfg.maxChars.None? || cfg.maxChars.value == 0 || |value| <= cfg.maxChars.value {
          return value;
        }
        var maxChars := cfg.maxChars.value;
        if |cfg.ellipsis| >= maxChars {
          NthIsBoundary(value, maxChars);
          return Slice(value, NthOffset(value, maxChars));
        }
        var cutChar := maxChars - |cfg.ellipsis|;
        var cutByte := NthOffset(value, cutChar);
        NthIsBoundary(value, cutChar);
        if cfg.wordBoundary && cutByte > 0 {
          var adj := FindWordBoundary(value, cutByte, maxChars);
          OffsetGrows(value, WordCut(value, cutChar, maxChars / 5), cutChar);
          if adj <= cutByte {
            cutByte := adj;
          }
        }
        OffsetIsBoundary(value, KeptChars(value, cutChar, maxChars, cfg));
        ZeroOffset(value, cutChar);
        r := Slice(value, cutByte) + cfg.ellipsis;
    }
  }

  /** Only the empty prefix takes no bytes. */
  lemma ZeroOffset(s: string, k: nat)
    requires k <= |s|
    ensures Offset(s, k) == 0 <==> k == 0
  {
    OffsetGrows(s, 0, k);
  }

  // ---- What truncation guarantees ----

  /** What is kept of a text cut to `budget` characters: all of them, or up to the last word that ends in the window. */
  predicate Kept(value: string, k: nat, budget: nat, window: nat, cfg: Config)
    requires budget <= |value|
  {
    k <= budget
    && if cfg.wordBoundary then AfterLastBoundary(value, budget, SatSub(budget, window / 5), budget, k) else k == budget
  }

  /**
   In character mode an over-long text becomes a prefix, with the ellipsis if it fits, of at most
   `max` characters.
   */
  lemma TruncatedFits(value: string, cfg: Config, max: nat)
    requires cfg.limitMode.Character? && cfg.maxChars == Some(max) && 0 < max < |value|
    ensures |Truncated(value, cfg)| <= max && Truncated(value, cfg) != value
    ensures |cfg.ellipsis| >= max ==> Truncated(value, cfg) == value[..max]
    ensures |cfg.ellipsis| < max ==>
              exists k: nat :: Kept(value, k, max - |cfg.ellipsis|, max, cfg)
                  && Truncated(value, cfg) == value[..k] + cfg.ellipsis
  {
    if |cfg.ellipsis| < max {
      assert Kept(value, KeptChars(value, max - |cfg.ellipsis|, max, cfg), max - |cfg.ellipsis|, max, cfg);
    }
  }

  /** In character mode a text is left as it is exactly if there is no limit or it is within it. */
  lemma UnchangedIff(value: string, cfg: Config)
    requires cfg.limitMode.Character?
    ensures Truncated(value, cfg) == value
       <==> cfg.maxChars.None? || cfg.maxChars.value == 0 || |value| <= cfg.maxChars.value
  {
    if cfg.maxChars.Some? && 0 < cfg.maxChars.value < |value| {
      TruncatedFits(value, cfg, cfg.maxChars.value);
    }
  }

  /** So truncating again changes nothing. */
  lemma TruncatedTwice(value: string, cfg: Config)
    requires cfg.limitMode.Character?
    ensures Truncated(Truncated(value, cfg), cfg) == Truncated(value, cfg)
  {
    if cfg.maxChars.Some? && 0 < cfg.maxChars.value < |value| {
      TruncatedFits(value, cfg, cfg.maxChars.value);
    }
  }

  lemma BudgetTokens(k: nat, max: nat, cpt: nat)
    requires cpt > 0
    ensures k <= max * cpt ==> k / cpt <= max
    ensures k / cpt > max ==> k >= max * cpt + cpt
  {
    Arithmetic.DivAtLeast(k, max + 1, cpt);
    assert (max + 1) * cpt == max * cpt + cpt;
  }

  /**
   In token mode what precedes the ellipsis is a prefix within the token budget and the byte cap,
   and, without word boundaries, the longest of at most `max * charsPerToken` characters.
   */
  lemma TokenTruncatedFits(value: string, cfg: Config, max: nat)
    requires cfg.limitMode.Token? && cfg.maxTokens == Some(max) && 0 < max < EstimateTokens(value, cfg.charsPerToken)
    ensures exists k :: 0 <= k < |value|
              && Truncated(value, cfg) == value[..k] + cfg.ellipsis
              && EstimateTokens(value[..k], cfg.charsPerToken) <= max
              && Bytes(value[..k]) <= cfg.maxTextLength
              && (!cfg.wordBoundary ==>
                    k == max * Max(cfg.charsPerToken, 1) || Bytes(value[..k + 1]) > cfg.maxTextLength)
  {
    hide Bytes, EvaluateTextLimits;
    var cpt := Max(cfg.charsPerToken, 1);
    CharsWithinFits(value, cfg.maxTextLength);
    var effective := value[..CharsWithin(value, cfg.maxTextLength)];
    var budget := max * cpt;
    var k := KeptChars(effective, budget, Min(budget, |effective|), cfg);
    assert effective[..k] == value[..k];
    OffsetGrows(value, k, |effective|);
    BudgetTokens(k, max, cpt);
    BudgetTokens(|value|, max, cpt);
  }

  // ---- When token mode is idempotent ----

  /** Does token mode shorten this text? */
  predicate OverBudget(value: string, cfg: Config) {
    cfg.maxTokens.Some? && 0 < cfg.maxTokens.value < EstimateTokens(value, cfg.charsPerToken)
  }

  /** Characters within the token budget. */
  function Budget(cfg: Config): nat {
    if cfg.maxTokens.Some? then cfg.maxTokens.value * Max(cfg.charsPerToken, 1) else 0
  }

  /** Characters within both the token budget and the byte cap. */
  function Room(value: string, cfg: Config): nat {
    Min(Budget(cfg), CharsWithin(value, cfg.maxTextLength))
  }

  /** How many characters token mode keeps in front of the ellipsis. */
  function TokenCut(value: string, cfg: Config): (k: nat)
    ensures k <= |value| && k <= Budget(cfg)
  {
    CharsWithinFits(value, cfg.maxTextLength);
    KeptChars(value[..CharsWithin(value, cfg.maxTextLength)], Budget(cfg), Room(value, cfg), cfg)
  }

  lemma TokenTruncated(value: string, cfg: Config)
    requires cfg.limitMode.Token?
    ensures Truncated(value, cfg)
         == if OverBudget(value, cfg) then value[..TokenCut(value, cfg)] + cfg.ellipsis else value
  {
    CharsWithinFits(value, cfg.maxTextLength);
    assert forall k :: 0 <= k <= CharsWithin(value, cfg.maxTextLength) ==>
        value[..CharsWithin(value, cfg.maxTextLength)][..k] == value[..k];
  }

  lemma OneCut(s: string, i: nat, low: nat, k1: nat, k2: nat)
    requires low <= i <= |s| && AfterLastBoundary(s, i, low, i, k1) && AfterLastBoundary(s, i, low, i, k2)
    ensures k1 == k2
  {
    hide IsBoundaryChar;
  }

  /** The cut is the one position the word rule allows. */
  lemma CutIsKept(value: string, cfg: Config, k: nat)
    ensures Room(value, cfg) <= |value|
    ensures k == TokenCut(value, cfg) <==> Kept(value, k, Room(value, cfg), Room(value, cfg), cfg)
  {
    hide IsBoundaryChar, Bytes, CharsWithin;
    CharsWithinFits(value, cfg.maxTextLength);
    var room, cut := Room(value, cfg), TokenCut(value, cfg);
    assert Kept(value[..CharsWithin(value, cfg.maxTextLength)], cut, room, room, cfg);
    PrefixKept(value, CharsWithin(value, cfg.maxTextLength), cut, room, cfg);
    if cfg.wordBoundary && Kept(value, k, room, room, cfg) {
      OneCut(value, room, SatSub(room, room / 5), k, cut);
    }
  }

  /** The word rule reads only the characters it cuts from. */
  lemma PrefixKept(value: string, n: nat, k: nat, room: nat, cfg: Config)
    requires room <= n <= |value|
    ensures Kept(value[..n], k, room, room, cfg) <==> Kept(value, k, room, room, cfg)
  {
    hide IsBoundaryChar;
    assert forall i :: 0 <= i < n ==> value[..n][i] == value[i];
  }

  lemma {:induction false} BytesAppend(a: string, b: string)
    ensures Bytes(a + b) == Bytes(a) + Bytes(b)
  {
    if b == [] {
      assert a + b == a;
    } else {
      assert (a + b)[..|a + b| - 1] == a + b[..|b| - 1];
      BytesAppend(a, b[..|b| - 1]);
    }
  }

  lemma {:induction false} CharsWithinAppend(a: string, b: string, limit: nat)
    requires Bytes(a) <= limit
    ensures CharsWithin(a + b, limit) == |a| + CharsWithin(b, limit - Bytes(a))
  {
    BytesAppend(a, b);
    if b == [] {
      assert a + b == a;
    } else if Bytes(b) > limit - Bytes(a) {
      assert (a + b)[..|a + b| - 1] == a + b[..|b| - 1];
      CharsWithinAppend(a, b[..|b| - 1], limit);
    }
  }

  /** How much of the ellipsis a second pass sees behind `k` kept characters: what fits the budget and the byte cap. */
  function Seen(value: string, k: nat, cfg: Config): (e: nat)
    requires k <= |value|
    ensures e <= |cfg.ellipsis|
  {
    CharsWithinFits(cfg.ellipsis, SatSub(cfg.maxTextLength, Offset(value, k)));
    Min(SatSub(Budget(cfg), k), CharsWithin(cfg.ellipsis, SatSub(cfg.maxTextLength, Offset(value, k))))
  }

  lemma CutFits(value: string, cfg: Config)
    ensures Offset(value, TokenCut(value, cfg)) <= cfg.maxTextLength
  {
    CharsWithinFits(value, cfg.maxTextLength);
    OffsetGrows(value, TokenCut(value, cfg), CharsWithin(value, cfg.maxTextLength));
  }

  /** The room a second pass has. */
  lemma RoomAgain(value: string, cfg: Config)
    ensures var k := TokenCut(value, cfg);
            var once := value[..k] + cfg.ellipsis;
            Room(once, cfg) == k + Seen(value, k, cfg)
            && once[..k + Seen(value, k, cfg)] == value[..k] + cfg.ellipsis[..Seen(value, k, cfg)]
  {
    hide Bytes, CharsWithin, KeptChars;
    CutFits(value, cfg);
    CharsWithinAppend(value[..TokenCut(value, cfg)], cfg.ellipsis, cfg.maxTextLength);
  }

  /**
   Exactly when a second pass in token mode is the identity, in every configuration: the first
   changes nothing or brings the text within budget, or what the second pass sees of the
   ellipsis does not move the cut.
   */
  lemma TokenTwiceIff(value: string, cfg: Config)
    requires cfg.limitMode.Token?
    ensures var k, e := TokenCut(value, cfg), Seen(value, TokenCut(value, cfg), cfg);
            Truncated(Truncated(value, cfg), cfg) == Truncated(value, cfg) <==>
              (|| !OverBudget(value, cfg)
               || (k + |cfg.ellipsis|) / Max(cfg.charsPerToken, 1) <= cfg.maxTokens.value
               || Kept(value[..k] + cfg.ellipsis[..e], k, k + e, k + e, cfg))
  {
    hide Truncated, TokenCut, Seen, Kept, Room;
    TokenTruncated(value, cfg);
    if OverBudget(value, cfg) {
      var k := TokenCut(value, cfg);
      var once := value[..k] + cfg.ellipsis;
      TokenTruncated(once, cfg);
      RoomAgain(value, cfg);
      CutIsKept(once, cfg, k);
      PrefixKept(once, Room(once, cfg), k, Room(once, cfg), cfg);
      if OverBudget(once, cfg) {
        SameCutSameText(once, k, TokenCut(once, cfg), cfg.ellipsis);
      }
    }
  }

  lemma SameCutSameText(once: string, k: nat, k2: nat, ellipsis: string)
    requires k <= |once| && k2 <= |once| && once == once[..k] + ellipsis
    ensures once[..k2] + ellipsis == once <==> k2 == k
  {
    assert |once[..k2] + ellipsis| == k2 + |ellipsis|;
  }

  /** The byte cap leaves alone both what the budget covers of the text and the truncated text. */
  predicate CapIdle(value: string, cfg: Config) {
    Budget(cfg) <= CharsWithin(value, cfg.maxTextLength) <= |value|
    && Bytes(value[..TokenCut(value, cfg)] + cfg.ellipsis) <= cfg.maxTextLength
  }

  /** No word end among the ellipsis characters that fall back within the budget. */
  predicate NoWordEnd(ellipsis: string, reach: nat) {
    forall j :: 0 <= j < reach && j < |ellipsis| ==> !IsBoundaryChar(ellipsis[j])
  }

  /**
   Where the byte cap is idle, only a word end in the part of the ellipsis that falls back within
   the budget spoils idempotence, and then the text grows.
   */
  lemma TokenTwiceUncapped(value: string, cfg: Config)
    requires cfg.limitMode.Token? && OverBudget(value, cfg) && CapIdle(value, cfg)
    ensures var k := TokenCut(value, cfg);
            && (Truncated(Truncated(value, cfg), cfg) == Truncated(value, cfg) <==>
                  (|| (k + |cfg.ellipsis|) / Max(cfg.charsPerToken, 1) <= cfg.maxTokens.value
                   || NoWordEnd(cfg.ellipsis, Budget(cfg) - k)))
    ensures Truncated(Truncated(value, cfg), cfg) != Truncated(value, cfg) ==>
              |Truncated(Truncated(value, cfg), cfg)| > |Truncated(value, cfg)|
  {
    hide Truncated, Bytes, CharsWithin, TokenCut;
    var k, max, cpt := TokenCut(value, cfg), cfg.maxTokens.value, Max(cfg.charsPerToken, 1);
    TokenTwiceIff(value, cfg);
    TokenTruncated(value, cfg);
    BudgetTokens(k + |cfg.ellipsis|, max, cpt);
    if (k + |cfg.ellipsis|) / cpt > max {
      SeenAll(value, cfg);
      CutIsKept(value, cfg, k);
      StillKept(value, k, cfg);
      var once := value[..k] + cfg.ellipsis;
      TokenTruncated(once, cfg);
      RoomAgain(value, cfg);
      CutNotBefore(value, once, k, cfg);
    }
  }

  /** With an idle cap, a second pass over a long text sees all the budget covers. */
  lemma SeenAll(value: string, cfg: Config)
    requires CapIdle(value, cfg) && TokenCut(value, cfg) + |cfg.ellipsis| >= Budget(cfg)
    ensures Seen(value, TokenCut(value, cfg), cfg) == Budget(cfg) - TokenCut(value, cfg)
  {
    hide TokenCut;
    CutFits(value, cfg);
    BytesAppend(value[..TokenCut(value, cfg)], cfg.ellipsis);
  }

  lemma StillKept(value: string, k: nat, cfg: Config)
    requires Budget(cfg) <= |value| && k <= Budget(cfg) <= k + |cfg.ellipsis|
    requires Kept(value, k, Budget(cfg), Budget(cfg), cfg)
    ensures Kept(value[..k] + cfg.ellipsis[..Budget(cfg) - k], k, Budget(cfg), Budget(cfg), cfg)
       <==> NoWordEnd(cfg.ellipsis, Budget(cfg) - k)
  {
    hide IsBoundaryChar;
    var budget := Budget(cfg);
    var seen := value[..k] + cfg.ellipsis[..budget - k];
    if k == budget {
      assert seen == value[..budget];
      forall i | 0 <= i < budget
        ensures seen[i] == value[i]
      {
      }
    } else {
      assert seen[k - 1] == value[k - 1];
      assert forall j :: 0 <= j < budget - k ==> seen[k + j] == cfg.ellipsis[j];
      assert forall i :: k <= i < budget ==> seen[i] == cfg.ellipsis[i - k];
    }
  }

  /** What precedes the first cut is unchanged, so the second cannot fall before it. */
  lemma CutNotBefore(value: string, once: string, k: nat, cfg: Config)
    requires Budget(cfg) <= |value| && k <= Budget(cfg) <= |once| && once[..k] == value[..k]
    requires Kept(value, k, Budget(cfg), Budget(cfg), cfg)
    requires Room(once, cfg) == Budget(cfg)
    ensures k <= TokenCut(once, cfg)
  {
    hide IsBoundaryChar, TokenCut, Room;
    var k2 := TokenCut(once, cfg);
    CutIsKept(once, cfg, k2);
    assert forall i :: 0 <= i < k ==> once[i] == once[..k][i] == value[i];
  }

  /** An ellipsis without word ends, such as the default one, makes token mode idempotent while the cap is idle. */
  lemma PlainEllipsisIdempotent(value: string, cfg: Config)
    requires cfg.limitMode.Token? && (OverBudget(value, cfg) ==> CapIdle(value, cfg))
    requires NoWordEnd(cfg.ellipsis, |cfg.ellipsis|)
    ensures Truncated(Truncated(value, cfg), cfg) == Truncated(value, cfg)
  {
    hide Truncated, TokenCut;
    TokenTruncated(value, cfg);
    if OverBudget(value, cfg) {
      TokenTwiceUncapped(value, cfg);
    }
  }

  const DEFAULT_ELLIPSIS := "\U{2026}"

  lemma DefaultEllipsisPlain()
    ensures NoWordEnd(DEFAULT_ELLIPSIS, |DEFAULT_ELLIPSIS|)
  {
  }

  /** With the default ellipsis a second pass is the identity while the byte cap is idle. */
  lemma DefaultIdempotent(value: string, cfg: Config)
    requires cfg.limitMode.Token? && (OverBudget(value, cfg) ==> CapIdle(value, cfg))
    requires cfg.ellipsis == DEFAULT_ELLIPSIS
    ensures Truncated(Truncated(value, cfg), cfg) == Truncated(value, cfg)
  {
    hide Truncated, CapIdle, OverBudget;
    DefaultEllipsisPlain();
    PlainEllipsisIdempotent(value, cfg);
  }

  /** Without word boundaries a second pass is the identity unless the byte cap left room for some of the ellipsis. */
  lemma HardCutTwiceIff(value: string, cfg: Config)
    requires cfg.limitMode.Token? && !cfg.wordBoundary && OverBudget(value, cfg)
    ensures var k := TokenCut(value, cfg);
            Truncated(Truncated(value, cfg), cfg) == Truncated(value, cfg) <==>
              (|| (k + |cfg.ellipsis|) / Max(cfg.charsPerToken, 1) <= cfg.maxTokens.value
               || k == Budget(cfg)
               || cfg.ellipsis == ""
               || Bytes(value[..k]) + Width(cfg.ellipsis[0]) > cfg.maxTextLength)
  {
    hide Truncated, TokenCut;
    TokenTwiceIff(value, cfg);
    CutFits(value, cfg);
    FirstFits(cfg.ellipsis, cfg.maxTextLength - Offset(value, TokenCut(value, cfg)));
  }

  /** Some of a text fits exactly when its first character does. */
  lemma FirstFits(s: string, b: nat)
    ensures CharsWithin(s, b) > 0 <==> s != "" && Width(s[0]) <= b
  {
    CharsWithinFits(s, b);
    if s != "" {
      assert s[..1] == [s[0]] && [s[0]][..0] == "" && Bytes([s[0]]) == Bytes("") + Width(s[0]);
      if CharsWithin(s, b) > 0 {
        OffsetGrows(s, 1, CharsWithin(s, b));
      }
    }
  }

  /** So it is while the byte cap does not bite the text. */
  lemma HardCutIdempotent(value: string, cfg: Config)
    requires cfg.limitMode.Token? && !cfg.wordBoundary
    requires OverBudget(value, cfg) ==> Budget(cfg) <= CharsWithin(value, cfg.maxTextLength)
    ensures Truncated(Truncated(value, cfg), cfg) == Truncated(value, cfg)
  {
    hide Truncated;
    TokenTruncated(value, cfg);
    if OverBudget(value, cfg) {
      CutIsKept(value, cfg, TokenCut(value, cfg));
      HardCutTwiceIff(value, cfg);
    }
  }

  lemma {:induction false} BytesAtMost(s: string)
    ensures Bytes(s) <= 4 * |s|
  {
    if s != [] {
      BytesAtMost(s[..|s| - 1]);
    }
  }

  /** Texts well within the cap leave it idle. */
  lemma ShortIsIdle(value: string, cfg: Config)
    requires OverBudget(value, cfg) && 4 * (|value| + |cfg.ellipsis|) <= cfg.maxTextLength
    ensures CapIdle(value, cfg) && Room(value, cfg) == Budget(cfg)
  {
    hide TokenCut;
    BytesAtMost(value);
    BytesAtMost(value[..TokenCut(value, cfg)] + cfg.ellipsis);
    BudgetTokens(|value|, cfg.maxTokens.value, Max(cfg.charsPerToken, 1));
  }

  /** A text that grows: ten tokens of one character, an ellipsis of three dots, and a last space in ninth place. */
  lemma TokenTruncationUnstable(value: string, cfg: Config)
    requires |value| == 12 && value[8] == ' ' && value[9] == 'i'
    requires cfg == Config(0, None, 0, Some(10), 1, Token, Truncate, "...", true, 1000, 100, 100)
    ensures Truncated(Truncated(value, cfg), cfg) != Truncated(value, cfg)
  {
    hide Truncated, TokenCut;
    ShortIsIdle(value, cfg);
    KeepsNine(value, cfg);
    CutIsKept(value, cfg, 9);
    TokenTwiceUncapped(value, cfg);
    assert cfg.ellipsis[0] == '.';
  }

  lemma KeepsNine(value: string, cfg: Config)
    requires |value| == 12 && value[8] == ' ' && value[9] == 'i' && cfg.wordBoundary
    ensures Kept(value, 9, 10, 10, cfg)
  {
  }
}

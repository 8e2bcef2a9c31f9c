/** Rate strings: `"30/m"` becomes 30 requests per 60 seconds. */
module RateConfig {
  import opened Outcomes
  import opened Text

  const MAX_RATE_COUNT: nat := 1_000_000
  const NANOS_PER_SEC: nat := 1_000_000_000
  const U64_MAX: nat := 0xFFFF_FFFF_FFFF_FFFF

  datatype RateLimit = RateLimit(count: nat, windowNanos: nat)

  datatype Algorithm = FixedWindow | SlidingWindow | TokenBucket

  datatype ConfigError = InvalidRateString | ZeroCount | CountAboveCeiling

  /** Exactly what `ParseRate` can produce. */
  predicate ValidRate(r: RateLimit) {
    && 1 <= r.count <= MAX_RATE_COUNT
    && (r.windowNanos == 1_000_000_000 || r.windowNanos == 60_000_000_000 || r.windowNanos == 3_600_000_000_000)
  }

  function FindSlash(s: string): (i: nat)
    ensures i <= |s| && (i < |s| ==> s[i] == '/') && forall j :: 0 <= j < i ==> s[j] != '/'
  {
    if s == [] || s[0] == '/' then 0 else 1 + FindSlash(s[1..])
  }

  function DigitsValue(s: string): nat
    requires forall i :: 0 <= i < |s| ==> IsDigit(s[i])
  {
    if s == [] then 0
    else
      assert IsDigit(s[|s| - 1]);
      DigitsValue(s[..|s| - 1]) * 10 + (s[|s| - 1] as int - '0' as int)
  }

  predicate AllDigits(s: string) {
    forall i :: 0 <= i < |s| ==> IsDigit(s[i])
  }

  /** Decimal 64-bit unsigned parse: digits, with an optional leading plus sign. */
  function ParseU64(s: string): Option<nat> {
    var digits := if s != [] && s[0] == '+' then s[1..] else s;
    if digits == [] || !AllDigits(digits) then None
    else if DigitsValue(digits) > U64_MAX then None
    else Some(DigitsValue(digits))
  }

  function UnitSecs(unit: string): Option<nat> {
    if unit == "s" || unit == "sec" || unit == "second" then Some(1)
    else if unit == "m" || unit == "min" || unit == "minute" then Some(60)
    else if unit == "h" || unit == "hr" || unit == "hour" then Some(3600)
    else None
  }

  /** The count is judged before the unit. */
  function Judge(count: Option<nat>, secs: Option<nat>): (r: Result<RateLimit, ConfigError>)
  {
    if count.None? then Err(InvalidRateString)
    else if count.value == 0 then Err(ZeroCount)
    else if count.value > MAX_RATE_COUNT then Err(CountAboveCeiling)
    else if secs.None? then Err(InvalidRateString)
    else Ok(RateLimit(count.value, secs.value * NANOS_PER_SEC))
  }

  function ParseRate(input: string): (r: Result<RateLimit, ConfigError>)
    ensures r.Ok? ==> ValidRate(r.value)
  {
    var s := Trim(input);
    var slash := FindSlash(s);
    if slash == |s| then Err(InvalidRateString)
    else Judge(ParseU64(Trim(s[..slash])), UnitSecs(ToLower(Trim(s[slash + 1..]))))
  }

  lemma {:induction false} DecimalValue(n: nat)
    ensures DigitsValue(Decimal(n)) == n
  {
    if n >= 10 {
      DecimalValue(n / 10);
      var s := Decimal(n);
      assert s[..|s| - 1] == Decimal(n / 10);
    }
  }

  lemma DecimalParses(n: nat)
    ensures ParseU64(Decimal(n)) == if n <= U64_MAX then Some(n) else None
  {
    DecimalValue(n);
    assert IsDigit(Decimal(n)[0]);
  }

  /** The nine unit words, and their windows in nanoseconds. */
  predicate UnitNanos(word: string, nanos: nat) {
    || (word in ["s", "sec", "second"] && nanos == 1_000_000_000)
    || (word in ["m", "min", "minute"] && nanos == 60_000_000_000)
    || (word in ["h", "hr", "hour"] && nanos == 3_600_000_000_000)
  }

  lemma WordsAreSmall(word: string, nanos: nat)
    requires UnitNanos(word, nanos)
    ensures forall i :: 0 <= i < |word| ==> word[i] in LOWER_CASE
  {
    forall i | 0 <= i < |word|
      ensures word[i] in LOWER_CASE
    {
      SmallIff(word[i]);
    }
  }

  lemma WordMeans(word: string, unit: string, nanos: nat)
    requires UnitNanos(word, nanos) && SpeltAs(unit, word)
    ensures UnitSecs(ToLower(unit)).Some? && UnitSecs(ToLower(unit)).value * NANOS_PER_SEC == nanos
  {
    hide UnitSecs, ToLower, UnitNanos;
    WordsAreSmall(word, nanos);
    ToLowerMeans(unit, word);
    UnitMeans(word);
  }

  lemma UnitMeans(word: string)
    ensures UnitSecs(word).Some? ==> UnitNanos(word, UnitSecs(word).value * NANOS_PER_SEC)
    ensures forall nanos :: UnitNanos(word, nanos) ==>
              UnitSecs(word).Some? && nanos == UnitSecs(word).value * NANOS_PER_SEC
  {
  }

  function Zeros(k: nat): (s: string)
    ensures |s| == k && forall i :: 0 <= i < k ==> s[i] == '0'
  {
    seq(k, _ => '0')
  }

  /** Digits are leading zeros and the numeral of their value. */
  lemma {:induction false} DigitsSplit(s: string) returns (k: nat)
    requires s != [] && AllDigits(s)
    ensures s == Zeros(k) + Decimal(DigitsValue(s))
  {
    var n := |s| - 1;
    var front, last := s[..n], s[n];
    assert s == front + [last] && IsDigit(last);
    if front == [] {
      k := 0;
    } else {
      k := DigitsSplit(front);
      if DigitsValue(front) == 0 {
        assert Zeros(k) + "0" == Zeros(k + 1);
        k := k + 1;
      }
    }
  }

  lemma {:induction false} LeadingZeros(k: nat, s: string)
    requires AllDigits(s)
    ensures AllDigits(Zeros(k) + s) && DigitsValue(Zeros(k) + s) == DigitsValue(s)
  {
    if s == [] {
      ZerosValue(k);
      assert Zeros(k) + s == Zeros(k);
    } else {
      var n := |s| - 1;
      assert (Zeros(k) + s)[..k + n] == Zeros(k) + s[..n];
      LeadingZeros(k, s[..n]);
    }
  }

  lemma {:induction false} ZerosValue(k: nat)
    ensures DigitsValue(Zeros(k)) == 0
  {
    if k > 0 {
      assert Zeros(k)[..k - 1] == Zeros(k - 1);
      ZerosValue(k - 1);
    }
  }

  /** The numeral of `n`, perhaps after zeros, perhaps after a plus sign. */
  ghost predicate IsCount(s: string, n: nat) {
    n <= 18_446_744_073_709_551_615 && exists k: nat :: s == Zeros(k) + Decimal(n) || s == "+" + (Zeros(k) + Decimal(n))
  }

  lemma ParsedIsCount(s: string, n: nat)
    requires ParseU64(s) == Some(n)
    ensures IsCount(s, n)
  {
    hide Decimal;
    var digits := if s != [] && s[0] == '+' then s[1..] else s;
    var k := DigitsSplit(digits);
    if s[0] == '+' {
      assert s == "+" + digits;
    }
  }

  lemma CountParses(s: string, n: nat, k: nat)
    requires n <= U64_MAX && (s == Zeros(k) + Decimal(n) || s == "+" + (Zeros(k) + Decimal(n)))
    ensures ParseU64(s) == Some(n)
  {
    hide Decimal, DigitsValue;
    var digits := Zeros(k) + Decimal(n);
    LeadingZeros(k, Decimal(n));
    DecimalValue(n);
    assert IsDigit(digits[0]) && ("+" + digits)[1..] == digits;
    assert digits == if s != [] && s[0] == '+' then s[1..] else s;
  }

  /** The number parser accepts exactly these texts. */
  lemma ParseU64Iff(s: string, n: nat)
    ensures ParseU64(s) == Some(n) <==> IsCount(s, n)
  {
    hide ParseU64, Decimal;
    if ParseU64(s) == Some(n) {
      ParsedIsCount(s, n);
    }
    if IsCount(s, n) {
      var k: nat :| s == Zeros(k) + Decimal(n) || s == "+" + (Zeros(k) + Decimal(n));
      CountParses(s, n, k);
    }
  }

  /** What an input says once split at its first slash, if it has one. */
  ghost predicate Says(input: string, count: string, unit: string) {
    exists i :: 0 <= i < |Trim(input)| && Trim(input)[i] == '/' && (forall j :: 0 <= j < i ==> Trim(input)[j] != '/')
                && count == Trim(Trim(input)[..i]) && unit == ToLower(Trim(Trim(input)[i + 1..]))
  }

  /** Exactly which inputs give which rate: a count from 1 to 1,000,000 and one of the nine unit words. */
  lemma ParseRateIff(input: string, rate: RateLimit)
    ensures ParseRate(input) == Ok(rate) <==>
              exists count, unit :: Says(input, count, unit)
                && IsCount(count, rate.count) && 1 <= rate.count <= 1_000_000 && UnitNanos(unit, rate.windowNanos)
  {
    hide Trim, ToLower, ParseU64, UnitSecs, UnitNanos, IsCount;
    var s := Trim(input);
    var i := FindSlash(s);
    if i < |s| {
      var count, unit := Trim(s[..i]), ToLower(Trim(s[i + 1..]));
      assert Says(input, count, unit);
      UnitMeans(unit);
      ParseU64Iff(count, rate.count);
    }
    if count, unit :| Says(input, count, unit)
                      && IsCount(count, rate.count) && 1 <= rate.count <= 1_000_000
                      && UnitNanos(unit, rate.windowNanos) {
      var j :| 0 <= j < |s| && s[j] == '/' && (forall m :: 0 <= m < j ==> s[m] != '/')
               && count == Trim(s[..j]) && unit == ToLower(Trim(s[j + 1..]));
      assert j == i;
    }
  }

  /** And which inputs give which error; a bad count is reported before a bad unit. */
  lemma ParseRateErrors(input: string)
    ensures ParseRate(input) == Err(ZeroCount) <==> exists count, unit :: Says(input, count, unit) && IsCount(count, 0)
    ensures ParseRate(input) == Err(CountAboveCeiling) <==>
              exists count, unit, n :: Says(input, count, unit) && IsCount(count, n) && n > 1_000_000
  {
    hide Trim, ToLower, ParseU64, UnitSecs, IsCount;
    var s := Trim(input);
    var i := FindSlash(s);
    forall count, unit | Says(input, count, unit)
      ensures i < |s| && count == Trim(s[..i]) && unit == ToLower(Trim(s[i + 1..]))
    {
      var j :| 0 <= j < |s| && s[j] == '/' && (forall m :: 0 <= m < j ==> s[m] != '/')
               && count == Trim(s[..j]) && unit == ToLower(Trim(s[j + 1..]));
      assert j == i;
    }
    if i < |s| {
      var count, unit := Trim(s[..i]), ToLower(Trim(s[i + 1..]));
      assert Says(input, count, unit);
      forall n: nat
        ensures ParseU64(count) == Some(n) <==> IsCount(count, n)
      {
        ParseU64Iff(count, n);
      }
    }
  }

  lemma SlashAfter(left: string, right: string)
    requires forall i :: 0 <= i < |left| ==> left[i] != '/'
    ensures FindSlash(left + "/" + right) == |left|
  {
    var s := left + "/" + right;
    assert s[|left|] == '/';
    assert forall i :: 0 <= i < |left| ==> s[i] == left[i];
  }

  /** Case and padding do not matter, and every rate the limiter can hold has a rate string. */
  lemma ParseRateRoundTrip(n: nat, word: string, unit: string, nanos: nat,
                           p1: string, p2: string, p3: string, p4: string)
    requires UnitNanos(word, nanos) && SpeltAs(unit, word)
    requires AllSpace(p1) && AllSpace(p2) && AllSpace(p3) && AllSpace(p4)
    ensures ParseRate(p1 + (Decimal(n) + p2 + "/" + (p3 + unit)) + p4)
         == if n == 0 then Err(ZeroCount)
            else if n > U64_MAX then Err(InvalidRateString)
            else if n > MAX_RATE_COUNT then Err(CountAboveCeiling)
            else Ok(RateLimit(n, nanos))
  {
    hide UnitSecs, ParseU64, Trim, FindSlash, ToLower, Decimal, IsSpace, IsDigit, UnitNanos, SpeltAs;
    WordMeans(word, unit, nanos);
    var left, right := Decimal(n) + p2, p3 + unit;
    var core := left + "/" + right;
    UnitHasNoSpace(unit);
    DigitNoSpace(Decimal(n));
    assert core[0] == Decimal(n)[0] && core[|core| - 1] == unit[|unit| - 1];
    TrimPadded(p1, core, p4);
    SpaceNoSlash(p2);
    SlashAfter(left, right);
    assert core[..|left|] == left && core[|left| + 1..] == right;
    assert [] + Decimal(n) + p2 == left && right + [] == right;
    TrimPadded([], Decimal(n), p2);
    TrimPadded(p3, unit, []);
    DecimalParses(n);
  }

  lemma SpaceNoSlash(s: string)
    requires AllSpace(s)
    ensures forall i :: 0 <= i < |s| ==> s[i] != '/'
  {
  }

  lemma DigitNoSpace(digits: string)
    requires digits != [] && forall i :: 0 <= i < |digits| ==> IsDigit(digits[i])
    ensures !IsSpace(digits[0]) && !IsSpace(digits[|digits| - 1])
    ensures forall i :: 0 <= i < |digits| ==> digits[i] != '/'
  {
    assert IsDigit(digits[0]) && IsDigit(digits[|digits| - 1]);
  }

  lemma UnitHasNoSpace(unit: string)
    requires UnitSecs(ToLower(unit)).Some?
    ensures unit != [] && !IsSpace(unit[0]) && !IsSpace(unit[|unit| - 1])
    ensures unit[0] != '/'
  {
    var u := ToLower(unit);
    assert |u| == |unit| && u != [];
    assert u[0] == Lower(unit[0]) && u[|u| - 1] == Lower(unit[|unit| - 1]);
    assert 'a' <= u[0] <= 'z' && 'a' <= u[|u| - 1] <= 'z';
  }
}

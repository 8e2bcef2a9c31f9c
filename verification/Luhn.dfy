/** The card-number check: Luhn's sum (Annex B of ISO/IEC 7812-1), computed left to right, and the known prefixes. */
module Luhn {
  import opened Text

  type Digit = d: nat | d < 10

  function DigitsOf(value: string): seq<Digit> {
    if value == [] then []
    else DigitsOf(value[..|value| - 1]) +
         (if IsDigit(value[|value| - 1]) then [value[|value| - 1] as int - '0' as int] else [])
  }

  /** What one digit adds to the sum. */
  function Weight(d: Digit, doubled: bool): Digit {
    if !doubled then d else if 2 * d > 9 then 2 * d - 9 else 2 * d
  }

  /** The sum over the first `k` digits, doubling those whose index has the given parity. */
  function Sum(ds: seq<Digit>, parity: nat, k: nat): nat
    requires k <= |ds|
  {
    if k == 0 then 0 else Sum(ds, parity, k - 1) + Weight(ds[k - 1], (k - 1) % 2 == parity)
  }

  predicate SumTest(ds: seq<Digit>) {
    Sum(ds, |ds| % 2, |ds|) % 10 == 0
  }

  /** The number formed by the first `k` digits. */
  function Leading(ds: seq<Digit>, k: nat): nat
    requires k <= |ds|
  {
    if k == 0 then 0 else Leading(ds, k - 1) * 10 + ds[k - 1]
  }

  predicate HasKnownCardPrefix(ds: seq<Digit>)
    requires |ds| >= 4
  {
    var n, p1, p2, p3, p4 := |ds|, Leading(ds, 1), Leading(ds, 2), Leading(ds, 3), Leading(ds, 4);
    || (p1 == 4 && (n == 13 || n == 16 || n == 19))
    || ((p2 == 34 || p2 == 37) && n == 15)
    || (p4 == 6011 && (n == 16 || n == 19))
    || (p2 == 65 && (n == 16 || n == 19))
    || (p2 == 62 && 16 <= n <= 19)
    || (p2 == 67 && 12 <= n <= 19)
    || ((p2 == 36 || p2 == 38 || p2 == 39) && n == 14)
    || (300 <= p3 <= 305 && n == 14)
    || (51 <= p2 <= 55 && n == 16)
    || (2221 <= p4 <= 2720 && n == 16)
    || (3528 <= p4 <= 3589 && n == 16)
  }

  predicate IsCardNumber(ds: seq<Digit>) {
    13 <= |ds| <= 19 && SumTest(ds) && HasKnownCardPrefix(ds)
  }

  method PassesLuhn(value: string) returns (ok: bool)
    ensures ok <==> IsCardNumber(DigitsOf(value))
  {
    var digits: seq<Digit> := [];
    for i := 0 to |value|
      invariant digits == DigitsOf(value[..i])
    {
      assert value[..i + 1][..i] == value[..i];
      if IsDigit(value[i]) {
        digits := digits + [value[i] as int - '0' as int];
      }
    }
    assert value[..|value|] == value;
    if !(13 <= |digits| <= 19) {
      return false;
    }
    var sum := 0;
    var parity := |digits| % 2;
    for idx := 0 to |digits|
      invariant sum == Sum(digits, parity, idx)
    {
      var term: nat := digits[idx];
      if idx % 2 == parity {
        term := term * 2;
        if term > 9 {
          term := term - 9;
        }
      }
      sum := sum + term;
    }
    ok := sum % 10 == 0 && HasKnownCardPrefix(digits);
  }

  // ---- Strength ----

  lemma {:induction false} SumUpdate(ds: seq<Digit>, parity: nat, k: nat, i: nat, e: Digit)
    requires k <= |ds| && i < |ds|
    ensures Sum(ds[i := e], parity, k)
         == Sum(ds, parity, k) + if i < k then Weight(e, i % 2 == parity) - Weight(ds[i], i % 2 == parity) else 0
  {
    if k > 0 {
      SumUpdate(ds, parity, k - 1, i, e);
    }
  }

  /** Doubling permutes the digits. */
  lemma WeightInjective(a: Digit, b: Digit, doubled: bool)
    requires Weight(a, doubled) == Weight(b, doubled)
    ensures a == b
  {
  }

  lemma SameResidue(s: nat, a: Digit, b: Digit)
    requires s % 10 == 0 && (s + a - b) % 10 == 0
    ensures a == b
  {
  }

  /** Changing any one digit of an accepted number is noticed, whatever its length. */
  lemma SingleErrorDetected(ds: seq<Digit>, i: nat, e: Digit)
    requires i < |ds| && SumTest(ds) && e != ds[i]
    ensures !SumTest(ds[i := e])
  {
    var n, doubled := |ds|, i % 2 == |ds| % 2;
    SumUpdate(ds, n % 2, n, i, e);
    if SumTest(ds[i := e]) {
      SameResidue(Sum(ds, n % 2, n), Weight(e, doubled), Weight(ds[i], doubled));
      WeightInjective(e, ds[i], doubled);
    }
  }

  function Swapped(ds: seq<Digit>, i: nat): seq<Digit>
    requires i + 1 < |ds|
  {
    ds[i := ds[i + 1]][i + 1 := ds[i]]
  }

  /** Swapping two neighbours of an accepted number goes unnoticed exactly when they are equal, or are 0 and 9. */
  lemma AdjacentSwapDetected(ds: seq<Digit>, i: nat)
    requires i + 1 < |ds| && SumTest(ds)
    ensures SumTest(Swapped(ds, i)) <==> ds[i] == ds[i + 1] || {ds[i], ds[i + 1]} == {0, 9}
  {
    var n, p, a, b := |ds|, |ds| % 2, ds[i], ds[i + 1];
    var once := ds[i := b];
    SumUpdate(ds, p, n, i, b);
    SumUpdate(once, p, n, i + 1, a);
    assert i % 2 == p <==> (i + 1) % 2 != p;
    SwapBalance(a, b);
    SwapBalance(b, a);
    SwapResidue(Sum(ds, p, n), a, b, i % 2 == p);
    assert {a, b} == {0, 9} <==> (a == 0 && b == 9) || (a == 9 && b == 0) by {
      if {a, b} == {0, 9} {
        assert 0 in {a, b} && 9 in {a, b};
      }
    }
  }

  /** Doubling one of two digits, or the other, weighs the same only for equal digits and for 0 and 9. */
  lemma SwapBalance(a: Digit, b: Digit)
    ensures (Weight(a, true) + b - Weight(b, true) - a) % 10 == 0
       <==> a == b || (a == 0 && b == 9) || (a == 9 && b == 0)
  {
  }

  /** How the sum changes when `a` before `b` become `b` before `a`. */
  function SwapChange(a: Digit, b: Digit, firstDoubled: bool): int {
    Weight(b, firstDoubled) - Weight(a, firstDoubled) + Weight(a, !firstDoubled) - Weight(b, !firstDoubled)
  }

  lemma SwapResidue(s: nat, a: Digit, b: Digit, firstDoubled: bool)
    requires s % 10 == 0
    ensures (s + SwapChange(a, b, firstDoubled)) % 10 == 0 <==> (Weight(a, true) + b - Weight(b, true) - a) % 10 == 0
  {
  }

  lemma {:induction false} SumPrefix(ds: seq<Digit>, d: Digit, parity: nat, k: nat)
    requires k <= |ds|
    ensures Sum(ds + [d], parity, k) == Sum(ds, parity, k)
  {
    if k > 0 {
      SumPrefix(ds, d, parity, k - 1);
    }
  }

  function CheckDigit(ds: seq<Digit>): Digit {
    (10 - Sum(ds, (|ds| + 1) % 2, |ds|) % 10) % 10
  }

  /** Every number has exactly one check digit. */
  lemma CheckDigitUnique(ds: seq<Digit>, d: Digit)
    ensures SumTest(ds + [d]) <==> d == CheckDigit(ds)
  {
    hide Sum;
    LastUndoubled(ds, d);
    CheckResidue(Sum(ds, (|ds| + 1) % 2, |ds|), d);
  }

  lemma LastUndoubled(ds: seq<Digit>, d: Digit)
    ensures Sum(ds + [d], (|ds| + 1) % 2, |ds| + 1) == Sum(ds, (|ds| + 1) % 2, |ds|) + d
  {
    SumPrefix(ds, d, (|ds| + 1) % 2, |ds|);
  }

  lemma CheckResidue(s: nat, d: Digit)
    ensures (s + d) % 10 == 0 <==> d == (10 - s % 10) % 10
  {
  }

  /** A card number mistyped in one digit is not taken for a card number. */
  lemma MistypedRejected(ds: seq<Digit>, i: nat, e: Digit)
    requires IsCardNumber(ds) && i < |ds| && e != ds[i]
    ensures !IsCardNumber(ds[i := e])
  {
    SingleErrorDetected(ds, i, e);
  }

  /** The standard's own sum: from the right, every second digit doubled and its digits added. */
  function FromRight(ds: seq<Digit>, doubled: bool): nat {
    if ds == [] then 0
    else
      var d: nat := ds[|ds| - 1];
      (if doubled then 2 * d / 10 + 2 * d % 10 else d) + FromRight(ds[..|ds| - 1], !doubled)
  }

  lemma {:induction false} LeftIsRight(ds: seq<Digit>, parity: nat, k: nat)
    requires k <= |ds| && parity < 2
    ensures Sum(ds, parity, k) == FromRight(ds[..k], (k + 1) % 2 == parity)
  {
    if k > 0 {
      LeftIsRight(ds, parity, k - 1);
      assert ds[..k][..k - 1] == ds[..k - 1];
      WeightMeans(ds[k - 1]);
      assert (k - 1) % 2 == parity <==> (k + 1) % 2 == parity;
    }
  }

  lemma WeightMeans(d: Digit)
    ensures var n: nat := d; Weight(d, false) == n && Weight(d, true) == 2 * n / 10 + 2 * n % 10
  {
  }

  /** The left-to-right parity loop is the standard's test. */
  lemma SumTestIsStandard(ds: seq<Digit>)
    ensures SumTest(ds) <==> FromRight(ds, false) % 10 == 0
  {
    LeftIsRight(ds, |ds| % 2, |ds|);
    assert ds[..|ds|] == ds;
    assert (|ds| + 1) % 2 != |ds| % 2;
  }

  // ---- Digits and prefixes ----

  /** Digits are read left to right and everything else is passed over. */
  lemma {:induction false} DigitsOfMeans(a: string, c: char)
    ensures DigitsOf([]) == []
    ensures IsDigit(c) ==> DigitsOf(a + [c]) == DigitsOf(a) + [c as int - '0' as int]
    ensures !IsDigit(c) ==> DigitsOf(a + [c]) == DigitsOf(a)
  {
    assert (a + [c])[..|a + [c]| - 1] == a;
  }

  /** An issuer's numbers: the first digits lie in a range, and the length is one of a few. */
  datatype Scheme = Scheme(digits: nat, low: nat, high: nat, lengths: set<nat>)

  const SCHEMES: seq<Scheme> := [
    Scheme(1, 4, 4, {13, 16, 19}),
    Scheme(2, 34, 34, {15}),
    Scheme(2, 37, 37, {15}),
    Scheme(4, 6011, 6011, {16, 19}),
    Scheme(2, 65, 65, {16, 19}),
    Scheme(2, 62, 62, {16, 17, 18, 19}),
    Scheme(2, 67, 67, {12, 13, 14, 15, 16, 17, 18, 19}),
    Scheme(2, 36, 36, {14}),
    Scheme(2, 38, 39, {14}),
    Scheme(3, 300, 305, {14}),
    Scheme(2, 51, 55, {16}),
    Scheme(4, 2221, 2720, {16}),
    Scheme(4, 3528, 3589, {16})]

  predicate Issues(s: Scheme, ds: seq<Digit>) {
    s.digits <= |ds| && s.low <= Leading(ds, s.digits) <= s.high && |ds| in s.lengths
  }

  /** The first digits, as a number. */
  lemma LeadingIs(ds: seq<Digit>)
    requires |ds| >= 4
    ensures var a: nat, b: nat, c: nat, d: nat := ds[0], ds[1], ds[2], ds[3];
            && Leading(ds, 1) == a && Leading(ds, 2) == 10 * a + b
            && Leading(ds, 3) == 100 * a + 10 * b + c && Leading(ds, 4) == 1000 * a + 100 * b + 10 * c + d
  {
    assert Leading(ds, 0) == 0;
    assert Leading(ds, 1) == Leading(ds, 0) * 10 + ds[0];
    assert Leading(ds, 2) == Leading(ds, 1) * 10 + ds[1];
    assert Leading(ds, 3) == Leading(ds, 2) * 10 + ds[2];
    assert Leading(ds, 4) == Leading(ds, 3) * 10 + ds[3];
  }

  lemma LengthsAre(n: nat)
    ensures n in {16, 17, 18, 19} <==> 16 <= n <= 19
    ensures n in {12, 13, 14, 15, 16, 17, 18, 19} <==> 12 <= n <= 19
  {
  }

  /** A number has a known prefix exactly if one of the issuers has numbers like it. */
  lemma KnownPrefixIff(ds: seq<Digit>)
    requires |ds| >= 4
    ensures HasKnownCardPrefix(ds) <==> exists i :: 0 <= i < |SCHEMES| && Issues(SCHEMES[i], ds)
  {
    hide Leading;
    LengthsAre(|ds|);
    AnyOfThirteen(SCHEMES, ds);
  }

  lemma AnyOfThirteen(schemes: seq<Scheme>, ds: seq<Digit>)
    requires |schemes| == 13
    ensures (exists i :: 0 <= i < |schemes| && Issues(schemes[i], ds)) <==>
              || Issues(schemes[0], ds) || Issues(schemes[1], ds) || Issues(schemes[2], ds) || Issues(schemes[3], ds)
              || Issues(schemes[4], ds) || Issues(schemes[5], ds) || Issues(schemes[6], ds) || Issues(schemes[7], ds)
              || Issues(schemes[8], ds) || Issues(schemes[9], ds) || Issues(schemes[10], ds) || Issues(schemes[11], ds)
              || Issues(schemes[12], ds)
  {
    hide Issues;
  }

  /** What is taken for a card number: 13 to 19 digits, the standard's sum, and an issuer's prefix and length. */
  lemma CardNumberIff(ds: seq<Digit>)
    ensures IsCardNumber(ds) <==>
              && |ds| in {13, 14, 15, 16, 17, 18, 19}
              && FromRight(ds, false) % 10 == 0
              && exists i :: 0 <= i < |SCHEMES| && Issues(SCHEMES[i], ds)
  {
    hide Issues, HasKnownCardPrefix, SumTest;
    SumTestIsStandard(ds);
    if |ds| >= 4 {
      KnownPrefixIff(ds);
    }
  }
}

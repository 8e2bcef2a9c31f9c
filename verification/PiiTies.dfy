/**
 Which of several candidates over the same bytes is taken: the one whose type's name comes first
 in the alphabet, and of one type the one whose pattern comes first.
 */
module PiiTies {
  import opened Sorting
  import opened PiiSpans

  /** The names of the types. */
  function Name(k: PiiType): string {
    match k
    case BankAccount => "bank_account"
    case Bsn => "bsn"
    case CreditCard => "credit_card"
    case Custom => "custom"
    case DateOfBirth => "date_of_birth"
    case DriverLicense => "driver_license"
    case Email => "email"
    case IpAddress => "ip_address"
    case MedicalRecord => "medical_record"
    case Passport => "passport"
    case Phone => "phone"
    case Ssn => "ssn"
  }

  /** Dictionary order. */
  predicate Alphabetical(a: string, b: string) {
    b != [] && (a == [] || a[0] < b[0] || (a[0] == b[0] && Alphabetical(a[1..], b[1..])))
  }

  lemma {:induction false} AlphabeticalTransitive(a: string, b: string, c: string)
    requires Alphabetical(a, b) && Alphabetical(b, c)
    ensures Alphabetical(a, c)
  {
    if a != [] && a[0] == b[0] == c[0] {
      AlphabeticalTransitive(a[1..], b[1..], c[1..]);
    }
  }

  lemma {:induction false} AlphabeticalStrict(a: string)
    ensures !Alphabetical(a, a)
  {
    if a != [] {
      AlphabeticalStrict(a[1..]);
    }
  }

  /** The type of the given rank. */
  function Ranked(n: nat): PiiType
    requires n < 12
  {
    match n
    case 0 => BankAccount
    case 1 => Bsn
    case 2 => CreditCard
    case 3 => Custom
    case 4 => DateOfBirth
    case 5 => DriverLicense
    case 6 => Email
    case 7 => IpAddress
    case 8 => MedicalRecord
    case 9 => Passport
    case 10 => Phone
    case _ => Ssn
  }

  lemma RankInverse(k: PiiType)
    ensures NameRank(k) < 12 && Ranked(NameRank(k)) == k
  {
  }

  lemma NextName(n: nat)
    requires n < 11
    ensures Alphabetical(Name(Ranked(n)), Name(Ranked(n + 1)))
  {
    var a, b := Name(Ranked(n)), Name(Ranked(n + 1));
    if a[0] == b[0] {
      assert a[1] < b[1];
      assert a[1..][0] == a[1] && b[1..][0] == b[1];
    }
  }

  lemma {:induction false} NamesInOrder(m: nat, n: nat)
    requires m < n < 12
    ensures Alphabetical(Name(Ranked(m)), Name(Ranked(n)))
  {
    hide Name, Ranked, Alphabetical;
    NextName(n - 1);
    if m < n - 1 {
      NamesInOrder(m, n - 1);
      AlphabeticalTransitive(Name(Ranked(m)), Name(Ranked(n - 1)), Name(Ranked(n)));
    }
  }

  /** Ranks follow the alphabet. */
  lemma RankIff(a: PiiType, b: PiiType)
    ensures NameRank(a) < NameRank(b) <==> Alphabetical(Name(a), Name(b))
    ensures NameRank(a) == NameRank(b) <==> a == b
  {
    hide Name, Ranked, NameRank, Alphabetical;
    RankInverse(a);
    RankInverse(b);
    if NameRank(a) < NameRank(b) {
      NamesInOrder(NameRank(a), NameRank(b));
    } else if NameRank(b) < NameRank(a) {
      NamesInOrder(NameRank(b), NameRank(a));
      if Alphabetical(Name(a), Name(b)) {
        AlphabeticalTransitive(Name(a), Name(b), Name(a));
        AlphabeticalStrict(Name(a));
      }
    } else {
      AlphabeticalStrict(Name(a));
    }
  }

  /** `k` is preferred to `c`, which covers the same bytes. */
  predicate Preferred(k: Span, c: Span) {
    Alphabetical(Name(k.kind), Name(c.kind)) || (k.kind == c.kind && k.pattern <= c.pattern)
  }

  ghost predicate TiesBroken(ks: seq<Span>, cs: seq<Span>) {
    forall k, c :: k in ks && c in cs && Range(k) == Range(c) && k.start < k.end ==> Preferred(k, c)
  }

  lemma {:induction false} GreedyFirst(cs: seq<Span>, lastEnd: nat, k: Span, c: Span)
    requires Sorted(cs, Precedes) && Proper(cs)
    requires k in Greedy(cs, lastEnd) && c in cs && c.start == k.start < k.end
    ensures Precedes(k, c)
  {
    SortedTail(cs, Precedes);
    var first, rest := cs[0], cs[1..];
    assert cs == [first] + rest;
    GreedySorted(rest, lastEnd);
    GreedySorted(rest, first.end);
    GreedyFacts(cs, lastEnd);
    if first.start < lastEnd {
      GreedyFirst(rest, lastEnd, k, c);
    } else if k != first {
      GreedyFacts(rest, first.end);
      assert k in rest && Precedes(first, k);
      GreedyFirst(rest, first.end, k, c);
    }
  }

  /** The selection breaks ties so. */
  lemma SelectBreaksTies(cs: seq<Span>)
    requires Proper(cs)
    ensures TiesBroken(Select(cs), cs)
  {
    PrecedesIsOrder();
    SortKeeps(cs, Precedes);
    var sorted := Sort(cs, Precedes);
    forall k, c | k in Select(cs) && c in cs && Range(k) == Range(c) && k.start < k.end
      ensures Preferred(k, c)
    {
      GreedyFirst(sorted, 0, k, c);
      RankIff(k.kind, c.kind);
    }
  }

  /**
   Leftmost, longest and ties broken so: for non-empty candidates that fixes range, type and pattern
   of every span.
   */
  lemma SelectionDetermined(ks: seq<Span>, cs: seq<Span>, i: nat)
    requires forall c :: c in cs ==> c.start < c.end
    requires LeftmostLongest(ks, cs) && TiesBroken(ks, cs) && i < |ks|
    ensures |Select(cs)| == |ks|
    ensures var k, s := ks[i], Select(cs)[i];
            Range(k) == Range(s) && k.kind == s.kind && k.pattern == s.pattern
  {
    hide Select;
    SelectIsLeftmostLongest(cs);
    SelectBreaksTies(cs);
    LeftmostLongestUnique(ks, Select(cs), cs);
    var k, s := ks[i], Select(cs)[i];
    assert k in ks && s in Select(cs) && k in cs && s in cs;
    assert Preferred(k, s) && Preferred(s, k);
    RankIff(k.kind, s.kind);
    RankIff(s.kind, k.kind);
  }
}

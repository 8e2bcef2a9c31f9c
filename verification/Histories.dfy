/**
 What has happened so far, latest entry outermost, and how many of the recorded times
 fall in an interval.
 */
module Histories {

  datatype History<+T> = Start | Then(before: History<T>, last: T)

  /** How many recorded times lie in the closed interval from `lo` to `hi`. */
  function Count(h: History<int>, lo: int, hi: int): nat {
    match h
    case Start => 0
    case Then(before, t) => Count(before, lo, hi) + if lo <= t <= hi then 1 else 0
  }

  /** The recorded times later than `cutoff`, oldest first. */
  function After(h: History<nat>, cutoff: int): seq<nat> {
    match h
    case Start => []
    case Then(before, t) => if t > cutoff then After(before, cutoff) + [t] else After(before, cutoff)
  }

  predicate AtMost(h: History<int>, bound: int) {
    h.Then? ==> h.last <= bound && AtMost(h.before, bound)
  }

  predicate AtLeast(h: History<int>, bound: int) {
    h.Then? ==> bound <= h.last && AtLeast(h.before, bound)
  }

  /** The recorded times do not decrease. */
  predicate Rising(h: History<int>) {
    h.Then? ==> Rising(h.before) && (h.before.Then? ==> h.before.last <= h.last)
  }

  lemma {:induction false} RisingAtMost(h: History<int>)
    requires Rising(h) && h.Then?
    ensures AtMost(h, h.last)
  {
    if h.before.Then? {
      RisingAtMost(h.before);
      AtMostLater(h.before, h.before.last, h.last);
    }
  }

  lemma {:induction false} AtMostLater(h: History<int>, b1: int, b2: int)
    requires b1 <= b2 && AtMost(h, b1)
    ensures AtMost(h, b2)
  {
    if h.Then? {
      AtMostLater(h.before, b1, b2);
    }
  }

  /** A wider interval counts at least as much; past the latest time, width does not matter. */
  lemma {:induction false} CountMono(h: History<int>, lo: int, hi: int, lo2: int, hi2: int)
    requires lo2 <= lo && (hi <= hi2 || AtMost(h, hi2))
    ensures Count(h, lo, hi) <= Count(h, lo2, hi2)
  {
    if h.Then? {
      CountMono(h.before, lo, hi, lo2, hi2);
    }
  }

  lemma {:induction false} CountNone(h: History<int>, lo: int, hi: int)
    requires AtMost(h, lo - 1) || hi < lo
    ensures Count(h, lo, hi) == 0
  {
    if h.Then? {
      CountNone(h.before, lo, hi);
    }
  }

  lemma {:induction false} CountSplit(h: History<int>, lo: int, mid: int, hi: int)
    requires lo <= mid <= hi + 1
    ensures Count(h, lo, hi) == Count(h, lo, mid - 1) + Count(h, mid, hi)
  {
    if h.Then? {
      CountSplit(h.before, lo, mid, hi);
    }
  }

  lemma {:induction false} CountIsAfter(h: History<nat>, cutoff: int, hi: int)
    requires AtMost(h, hi)
    ensures Count(h, cutoff + 1, hi) == |After(h, cutoff)|
  {
    if h.Then? {
      CountIsAfter(h.before, cutoff, hi);
    }
  }

  lemma {:induction false} AfterNone(h: History<nat>, cutoff: int)
    requires AtMost(h, cutoff)
    ensures After(h, cutoff) == []
  {
    if h.Then? {
      AfterNone(h.before, cutoff);
    }
  }

  /** Below the earliest time, the cutoff does not matter. */
  lemma {:induction false} AfterAll(h: History<nat>, c1: int, c2: int)
    requires AtLeast(h, c1 + 1) && AtLeast(h, c2 + 1)
    ensures After(h, c1) == After(h, c2)
  {
    if h.Then? {
      AfterAll(h.before, c1, c2);
    }
  }

  lemma {:induction false} AtLeastEarlier(h: History<int>, b1: int, b2: int)
    requires b2 <= b1 && AtLeast(h, b1)
    ensures AtLeast(h, b2)
  {
    if h.Then? {
      AtLeastEarlier(h.before, b1, b2);
    }
  }
}

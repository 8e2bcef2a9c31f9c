/**
 Dimension keys are colon-joined text. Joining loses nothing as long as the parts hold no
 colon themselves.
 */
module Keys {

  function Join(parts: seq<string>): string {
    if parts == [] then ""
    else if |parts| == 1 then parts[0]
    else parts[0] + ":" + Join(parts[1..])
  }

  predicate ColonFree(s: string) {
    ':' !in s
  }

  ghost predicate AllColonFree(parts: seq<string>) {
    forall i :: 0 <= i < |parts| ==> ColonFree(parts[i])
  }

  /** The text before the first colon determines the first part. */
  lemma FirstPart(a: string, x: string, b: string, y: string)
    requires ColonFree(a) && ColonFree(b) && a + ":" + x == b + ":" + y
    ensures a == b && x == y
  {
    var s, t := a + ":" + x, b + ":" + y;
    assert s[|a|] == ':' && t[|b|] == ':';
    assert s[..|a|] == a && t[..|b|] == b;
    assert s[|a| + 1..] == x && t[|b| + 1..] == y;
  }

  lemma JoinHasColon(parts: seq<string>)
    requires |parts| > 1
    ensures ':' in Join(parts)
  {
    assert Join(parts)[|parts[0]|] == ':';
  }

  lemma {:induction false} JoinInjective(a: seq<string>, b: seq<string>)
    requires a != [] && b != [] && AllColonFree(a) && AllColonFree(b) && Join(a) == Join(b)
    ensures a == b
  {
    assert ColonFree(a[0]) && ColonFree(b[0]);
    if |a| == 1 || |b| == 1 {
      if |a| > 1 {
        JoinHasColon(a);
      }
      if |b| > 1 {
        JoinHasColon(b);
      }
    } else {
      FirstPart(a[0], Join(a[1..]), b[0], Join(b[1..]));
      JoinInjective(a[1..], b[1..]);
      assert a == [a[0]] + a[1..] && b == [b[0]] + b[1..];
    }
  }

  /** The text after the last colon determines the last part, whatever comes before it. */
  lemma LastPart(x: string, a: string, y: string, b: string)
    requires ColonFree(a) && ColonFree(b) && x + ":" + a == y + ":" + b
    ensures x == y && a == b
  {
    var s, t := x + ":" + a, y + ":" + b;
    assert s[|x|] == ':' && t[|y|] == ':';
    assert s[..|x|] == x && t[..|y|] == y;
    assert s[|x| + 1..] == a && t[|y| + 1..] == b;
  }
}

/**
 UTF-8 (section 3 of RFC 3629): the bytes behind a text, and that the two notions of character
 boundary, on bytes and on characters, are one.
 */
module Utf8Form {
  import opened Outcomes
  import opened Text
  import Truncation
  import PiiMasking
  import opened PiiSpans

  function Continuation(n: nat): Byte {
    (0x80 + n % 64) as Byte
  }

  /** Lead byte and continuation bytes of one scalar value, six bits in each of the latter. */
  function EncodeChar(c: char): Utf8 {
    var n := c as int;
    if n < 0x80 then [n as Byte]
    else if n < 0x800 then [(0xC0 + n / 64) as Byte, Continuation(n)]
    else if n < 0x10000 then [(0xE0 + n / 4096) as Byte, Continuation(n / 64), Continuation(n)]
    else [(0xF0 + n / 262144) as Byte, Continuation(n / 4096), Continuation(n / 64), Continuation(n)]
  }

  function Encode(s: string): Utf8 {
    if s == [] then [] else Encode(s[..|s| - 1]) + EncodeChar(s[|s| - 1])
  }

  predicate Continues(b: Byte) {
    0x80 <= b < 0xC0
  }

  /** One byte that starts a character, and then only bytes that continue it. */
  lemma CharShape(c: char)
    ensures |EncodeChar(c)| == Width(c) > 0
    ensures !Continues(EncodeChar(c)[0]) && forall i :: 1 <= i < Width(c) ==> Continues(EncodeChar(c)[i])
  {
  }

  function Payload(b: Byte): nat {
    b as nat % 64
  }

  lemma SixBitGroups(n: nat)
    ensures n == n / 64 * 64 + n % 64
    ensures n == n / 4096 * 4096 + n / 64 % 64 * 64 + n % 64
    ensures n == n / 262144 * 262144 + n / 4096 % 64 * 4096 + n / 64 % 64 * 64 + n % 64
  {
    assert n / 4096 == n / 64 / 64;
    assert n / 262144 == n / 4096 / 64;
  }

  lemma PayloadIs(n: nat)
    ensures Payload(Continuation(n)) == n % 64
  {
  }

  /** The scalar value can be read back. */
  lemma CharRoundTrip(c: char)
    ensures var e, n := EncodeChar(c), c as int;
            match |e|
            case 1 => n == e[0] as int
            case 2 => n == (e[0] as int - 0xC0) * 64 + Payload(e[1])
            case 3 => n == (e[0] as int - 0xE0) * 4096 + Payload(e[1]) * 64 + Payload(e[2])
            case 4 => n == (e[0] as int - 0xF0) * 262144 + Payload(e[1]) * 4096 + Payload(e[2]) * 64 + Payload(e[3])
            case _ => false
  {
    hide Payload, Continuation;
    var n := c as int;
    SixBitGroups(n);
    PayloadIs(n);
    PayloadIs(n / 64);
    PayloadIs(n / 4096);
  }

  /** The length of the encoded text is what the byte counts say. */
  lemma {:induction false} EncodedLength(s: string)
    ensures |Encode(s)| == Bytes(s)
  {
    hide EncodeChar, Width;
    if s != [] {
      EncodedLength(s[..|s| - 1]);
      CharShape(s[|s| - 1]);
    }
  }

  /** A byte offset is a character boundary of the encoded text exactly if a character of the text ends there. */
  lemma {:induction false} BoundaryIff(s: string, i: nat)
    ensures i <= Bytes(s) && PiiMasking.IsCharBoundary(Encode(s), i) <==> Truncation.IsCharBoundary(s, i)
  {
    hide EncodeChar, Width;
    EncodedLength(s);
    if s != [] {
      var front, last := s[..|s| - 1], s[|s| - 1];
      BoundaryIff(front, i);
      EncodedLength(front);
      CharShape(last);
      BeyondEnd(front, i);
      if Bytes(front) <= i < Bytes(s) {
        assert Encode(s)[i] == EncodeChar(last)[i - Bytes(front)];
      } else if i < Bytes(front) {
        assert Encode(s)[i] == Encode(front)[i];
      }
    }
  }

  lemma BeyondEnd(s: string, i: nat)
    ensures i == Bytes(s) ==> Truncation.IsCharBoundary(s, i)
    ensures i > Bytes(s) ==> !Truncation.IsCharBoundary(s, i)
  {
    if Truncation.IsCharBoundary(s, i) {
      Truncation.IndexIsOffset(s, i);
      Truncation.OffsetGrows(s, Truncation.IndexAt(s, i).value, |s|);
      assert s[..|s|] == s;
    }
  }
}

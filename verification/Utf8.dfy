/** UTF-8 validity of string fields: the grammar of section 4 of RFC 3629. */
module Utf8 {
  import opened Wire

  predicate Tail(b: byte) { 0x80 <= b <= 0xBF }

  /** The length of the UTF8-char at the front of `s`; zero if there is none. */
  function CharLength(s: Bytes): (n: nat)
    ensures n <= 4 && n <= |s|
  {
    if s == [] then 0
    else if s[0] <= 0x7F then 1
    else if |s| < 2 then 0
    else if 0xC2 <= s[0] <= 0xDF && Tail(s[1]) then 2
    else if |s| < 3 || !Tail(s[2]) then 0
    else if s[0] == 0xE0 && 0xA0 <= s[1] <= 0xBF then 3
    else if (0xE1 <= s[0] <= 0xEC || 0xEE <= s[0] <= 0xEF) && Tail(s[1]) then 3
    else if s[0] == 0xED && 0x80 <= s[1] <= 0x9F then 3
    else if |s| < 4 || !Tail(s[3]) then 0
    else if s[0] == 0xF0 && 0x90 <= s[1] <= 0xBF then 4
    else if 0xF1 <= s[0] <= 0xF3 && Tail(s[1]) then 4
    else if s[0] == 0xF4 && 0x80 <= s[1] <= 0x8F then 4
    else 0
  }

  predicate ValidUtf8(s: Bytes) {
    s == [] || (CharLength(s) > 0 && ValidUtf8(s[CharLength(s)..]))
  }

  // Section 3 of RFC 3629: the encoding of a scalar value.

  predicate IsScalar(c: nat) { c <= 0xD7FF || 0xE000 <= c <= 0x10FFFF }

  function EncodeScalar(c: nat): (s: Bytes)
    requires IsScalar(c)
    ensures 1 <= |s| <= 4
  {
    if c <= 0x7F then [c]
    else if c <= 0x7FF then [0xC0 + c / 64, 0x80 + c % 64]
    else if c <= 0xFFFF then [0xE0 + c / 64 / 64, 0x80 + c / 64 % 64, 0x80 + c % 64]
    else [0xF0 + c / 64 / 64 / 64, 0x80 + c / 64 / 64 % 64, 0x80 + c / 64 % 64, 0x80 + c % 64]
  }

  function EncodeScalars(cs: seq<nat>): Bytes
    requires forall c <- cs :: IsScalar(c)
  {
    if cs == [] then [] else EncodeScalar(cs[0]) + EncodeScalars(cs[1..])
  }

  /** Two, three and four groups of bits, most significant first. */
  function Join(a: nat, b: nat): nat { a * 64 + b }

  lemma JoinDigits(a: nat, b: nat)
    requires b < 64
    ensures Join(a, b) / 64 == a && Join(a, b) % 64 == b
  {
  }

  function DecodeChar(s: Bytes): (c: nat)
    requires CharLength(s) > 0
  {
    var n := CharLength(s);
    var low: int := s[n - 1];
    if n == 1 then low
    else if n == 2 then Join(s[0] - 0xC0, low - 0x80)
    else if n == 3 then Join(Join(s[0] - 0xE0, s[1] - 0x80), low - 0x80)
    else Join(Join(Join(s[0] - 0xF0, s[1] - 0x80), s[2] - 0x80), low - 0x80)
  }

  lemma Encode2(a: byte, b: byte)
    requires 0xC2 <= a <= 0xDF && Tail(b)
    ensures var c := Join(a - 0xC0, b - 0x80); IsScalar(c) && EncodeScalar(c) == [a, b]
  {
    JoinDigits(a - 0xC0, b - 0x80);
  }

  lemma Encode3(a: byte, b: byte, d: byte)
    requires 0xE0 <= a <= 0xEF && Tail(b) && Tail(d)
    requires a == 0xE0 ==> 0xA0 <= b
    requires a == 0xED ==> b <= 0x9F
    ensures var c := Join(Join(a - 0xE0, b - 0x80), d - 0x80); IsScalar(c) && EncodeScalar(c) == [a, b, d]
  {
    JoinDigits(a - 0xE0, b - 0x80);
    JoinDigits(Join(a - 0xE0, b - 0x80), d - 0x80);
  }

  lemma Encode4(a: byte, b: byte, d: byte, e: byte)
    requires 0xF0 <= a <= 0xF4 && Tail(b) && Tail(d) && Tail(e)
    requires a == 0xF0 ==> 0x90 <= b
    requires a == 0xF4 ==> b <= 0x8F
    ensures var c := Join(Join(Join(a - 0xF0, b - 0x80), d - 0x80), e - 0x80);
            IsScalar(c) && EncodeScalar(c) == [a, b, d, e]
  {
    var g := Join(Join(a - 0xF0, b - 0x80), d - 0x80);
    JoinDigits(a - 0xF0, b - 0x80);
    JoinDigits(Join(a - 0xF0, b - 0x80), d - 0x80);
    JoinDigits(g, e - 0x80);
  }

  lemma DecodeCharEncodes(s: Bytes)
    requires CharLength(s) > 0
    ensures IsScalar(DecodeChar(s)) && EncodeScalar(DecodeChar(s)) == s[..CharLength(s)]
  {
    match CharLength(s)
    case 1 =>
    case 2 => Encode2(s[0], s[1]);
    case 3 => Encode3(s[0], s[1], s[2]);
    case _ => Encode4(s[0], s[1], s[2], s[3]);
  }

  lemma CharLengthEncoded(c: nat, y: Bytes)
    requires IsScalar(c)
    ensures CharLength(EncodeScalar(c) + y) == |EncodeScalar(c)|
  {
    var s := EncodeScalar(c) + y;
    assert s[..|EncodeScalar(c)|] == EncodeScalar(c);
  }

  function Decode(s: Bytes): (cs: seq<nat>)
    requires ValidUtf8(s)
    ensures forall c <- cs :: IsScalar(c)
  {
    if s == [] then []
    else DecodeCharEncodes(s); [DecodeChar(s)] + Decode(s[CharLength(s)..])
  }

  lemma EncodeCons(c: nat, cs: seq<nat>)
    requires IsScalar(c) && forall d <- cs :: IsScalar(d)
    ensures EncodeScalars([c] + cs) == EncodeScalar(c) + EncodeScalars(cs)
  {
    assert ([c] + cs)[1..] == cs;
  }

  lemma {:induction false} DecodeEncodes(s: Bytes)
    requires ValidUtf8(s)
    ensures EncodeScalars(Decode(s)) == s
  {
    if s != [] {
      var n := CharLength(s);
      assert Decode(s) == [DecodeChar(s)] + Decode(s[n..]);
      assert IsScalar(DecodeChar(s)) && EncodeScalar(DecodeChar(s)) == s[..n] by { DecodeCharEncodes(s); }
      hide CharLength, DecodeChar, EncodeScalar;
      DecodeEncodes(s[n..]);
      EncodeCons(DecodeChar(s), Decode(s[n..]));
      assert s[..n] + s[n..] == s;
    }
  }

  lemma {:induction false} EncodedIsValid(cs: seq<nat>)
    requires forall c <- cs :: IsScalar(c)
    ensures ValidUtf8(EncodeScalars(cs))
  {
    if cs != [] {
      CharLengthEncoded(cs[0], EncodeScalars(cs[1..]));
      assert EncodeScalars(cs)[|EncodeScalar(cs[0])|..] == EncodeScalars(cs[1..]);
      EncodedIsValid(cs[1..]);
    }
  }

  /** A scalar value is any number up to 0x10FFFF that is no surrogate, and its encoding holds
      its bits, six in each byte after the first. */
  lemma ScalarMeaning(c: nat)
    ensures IsScalar(c) <==> c < 0xD800 || 0xDFFF < c < 0x110000
    ensures IsScalar(c) ==>
              var s := EncodeScalar(c);
              && (c < 0x80 ==> s == [c])
              && (0x80 <= c < 0x800 ==> |s| == 2 && c == 64 * (s[0] as int - 0xC0) + (s[1] as int - 0x80))
              && (0x800 <= c < 0x10000 ==>
                    |s| == 3 && c == 64 * (64 * (s[0] as int - 0xE0) + (s[1] as int - 0x80)) + (s[2] as int - 0x80))
              && (0x10000 <= c ==>
                    |s| == 4 && c == 64 * (64 * (64 * (s[0] as int - 0xF0) + (s[1] as int - 0x80)) + (s[2] as int - 0x80)) + (s[3] as int - 0x80))
              && forall i | 0 < i < |s| :: 0x80 <= s[i] < 0xC0
  {
  }

  /** The grammar accepts exactly the encodings of sequences of scalar values. */
  lemma ValidIffEncoded(s: Bytes)
    ensures ValidUtf8(s) <==> exists cs: seq<nat> :: (forall c <- cs :: IsScalar(c)) && EncodeScalars(cs) == s
  {
    if ValidUtf8(s) { DecodeEncodes(s); }
    forall cs: seq<nat> | (forall c <- cs :: IsScalar(c)) && EncodeScalars(cs) == s ensures ValidUtf8(s) {
      EncodedIsValid(cs);
    }
  }
}

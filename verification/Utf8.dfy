/** UTF-8 (sections 3 and 4 of RFC 3629), and the decoder behind `Buffer.toString('utf8')`.

    Bytes and scalar values are bounded integers. A mask test of the source reads the top bits of
    a byte, which is division by a power of two here. */
module Utf8 {

  type Byte = b: int | 0 <= b < 0x100

  /** A Unicode scalar value: every code point except the surrogates. */
  type Scalar = c: int | 0 <= c < 0xD800 || 0xE000 <= c <= 0x10FFFF

  const REPLACEMENT: Scalar := 0xFFFD

  /** Section 3: the octets of one character number. */
  function EncodeScalar(c: Scalar): (s: seq<Byte>)
    ensures 1 <= |s| <= 4
  {
    if c < 0x80 then [c]
    else if c < 0x800 then [0xC0 + c / 0x40, 0x80 + c % 0x40]
    else if c < 0x10000 then [0xE0 + c / 0x1000, 0x80 + c / 0x40 % 0x40, 0x80 + c % 0x40]
    else [0xF0 + c / 0x40000, 0x80 + c / 0x1000 % 0x40, 0x80 + c / 0x40 % 0x40, 0x80 + c % 0x40]
  }

  function Encode(cs: seq<Scalar>): (s: seq<Byte>)
    ensures |cs| <= |s| <= 4 * |cs|
  {
    if cs == [] then [] else EncodeScalar(cs[0]) + Encode(cs[1..])
  }

  /** `UTF8-tail` of section 4. */
  predicate IsTail(b: Byte) { 0x80 <= b <= 0xBF }

  /** The first two octets of a `UTF8-3` production. */
  predicate OpensThree(a: Byte, b: Byte) {
    || (a == 0xE0 && 0xA0 <= b <= 0xBF)
    || (0xE1 <= a <= 0xEC && IsTail(b))
    || (a == 0xED && 0x80 <= b <= 0x9F)
    || (0xEE <= a <= 0xEF && IsTail(b))
  }

  /** The first two octets of a `UTF8-4` production. */
  predicate OpensFour(a: Byte, b: Byte) {
    || (a == 0xF0 && 0x90 <= b <= 0xBF)
    || (0xF1 <= a <= 0xF3 && IsTail(b))
    || (a == 0xF4 && 0x80 <= b <= 0x8F)
  }

  /** Length of the `UTF8-char` that `s` starts with, or 0 when it starts with none. */
  function CharLength(s: seq<Byte>): (n: nat)
    ensures n <= |s| && n <= 4
  {
    if |s| >= 1 && s[0] <= 0x7F then 1
    else if |s| >= 2 && 0xC2 <= s[0] <= 0xDF && IsTail(s[1]) then 2
    else if |s| >= 3 && OpensThree(s[0], s[1]) && IsTail(s[2]) then 3
    else if |s| >= 4 && OpensFour(s[0], s[1]) && IsTail(s[2]) && IsTail(s[3]) then 4
    else 0
  }

  /** `UTF8-octets` of section 4: a sequence of `UTF8-char`. */
  predicate WellFormed(s: seq<Byte>)
    decreases |s|
  {
    s == [] || (CharLength(s) > 0 && WellFormed(s[CharLength(s)..]))
  }

  /** The character number carried by the `UTF8-char` at the start of `s`. */
  function CharValue(s: seq<Byte>): (c: Scalar)
    requires CharLength(s) > 0
  {
    var n, lead: int := CharLength(s), s[0];
    if n == 1 then lead
    else
      var second: int := s[1] - 0x80;
      if n == 2 then (lead - 0xC0) * 0x40 + second
      else
        var third: int := s[2] - 0x80;
        if n == 3 then (lead - 0xE0) * 0x1000 + second * 0x40 + third
        else
          var fourth: int := s[3] - 0x80;
          (lead - 0xF0) * 0x40000 + second * 0x1000 + third * 0x40 + fourth
  }

  /** How many bytes one U+FFFD stands for: the longest start of a `UTF8-char`, or a single byte. */
  function BadLength(s: seq<Byte>): (n: nat)
    requires s != [] && CharLength(s) == 0
    ensures 1 <= n <= |s|
  {
    if |s| >= 2 && OpensThree(s[0], s[1]) then 2
    else if |s| >= 2 && OpensFour(s[0], s[1]) then (if |s| >= 3 && IsTail(s[2]) then 3 else 2)
    else 1
  }

  /** Decoding that never fails: invalid input becomes U+FFFD. */
  function Decode(s: seq<Byte>): (cs: seq<Scalar>)
    decreases |s|
  {
    if s == [] then []
    else if CharLength(s) > 0 then [CharValue(s)] + Decode(s[CharLength(s)..])
    else [REPLACEMENT] + Decode(s[BadLength(s)..])
  }

  /** Base-64 digits of a character number. */
  lemma Digits(c: nat)
    ensures c == c / 0x40 * 0x40 + c % 0x40
    ensures c / 0x40 == c / 0x1000 * 0x40 + c / 0x40 % 0x40
    ensures c / 0x1000 == c / 0x40000 * 0x40 + c / 0x1000 % 0x40
  {
  }

  lemma CharOfOctets(c: Scalar)
    ensures CharLength(EncodeScalar(c)) == |EncodeScalar(c)|
    ensures CharValue(EncodeScalar(c)) == c
  {
    Digits(c);
  }

  /** What starts a byte sequence does not depend on what follows it. */
  lemma CharIsLocal(s: seq<Byte>, rest: seq<Byte>)
    requires CharLength(s) == |s| > 0
    ensures CharLength(s + rest) == |s|
    ensures CharValue(s + rest) == CharValue(s)
  {
  }

  lemma CharOfScalar(c: Scalar, rest: seq<Byte>)
    ensures CharLength(EncodeScalar(c) + rest) == |EncodeScalar(c)|
    ensures CharValue(EncodeScalar(c) + rest) == c
  {
    CharOfOctets(c);
    hide EncodeScalar, CharLength, CharValue;
    CharIsLocal(EncodeScalar(c), rest);
  }

  lemma DigitsUnique(high: nat, low: nat)
    requires low < 0x40
    ensures (high * 0x40 + low) / 0x40 == high
    ensures (high * 0x40 + low) % 0x40 == low
  {
  }

  lemma ThreeOctets(a: int, b: int, d: int)
    requires 0 <= a < 0x10 && 0 <= b < 0x40 && 0 <= d < 0x40
    ensures var c := a * 0x1000 + b * 0x40 + d;
            c / 0x1000 == a && c / 0x40 % 0x40 == b && c % 0x40 == d
  {
    DigitsUnique(a * 0x40 + b, d);
    DigitsUnique(a, b);
    Digits(a * 0x1000 + b * 0x40 + d);
  }

  lemma FourOctets(a: int, b: int, d: int, e: int)
    requires 0 <= a < 8 && 0 <= b < 0x40 && 0 <= d < 0x40 && 0 <= e < 0x40
    ensures var c := a * 0x40000 + b * 0x1000 + d * 0x40 + e;
            c / 0x40000 == a && c / 0x1000 % 0x40 == b && c / 0x40 % 0x40 == d && c % 0x40 == e
  {
    DigitsUnique(a * 0x1000 + b * 0x40 + d, e);
    DigitsUnique(a * 0x40 + b, d);
    DigitsUnique(a, b);
    Digits(a * 0x40000 + b * 0x1000 + d * 0x40 + e);
  }

  lemma ScalarOfShortChar(s: seq<Byte>)
    requires 1 <= CharLength(s) <= 2
    ensures EncodeScalar(CharValue(s)) == s[..CharLength(s)]
  {
    if CharLength(s) == 2 { DigitsUnique(s[0] - 0xC0, s[1] - 0x80); }
  }

  lemma ScalarOfThree(s: seq<Byte>)
    requires CharLength(s) == 3
    ensures EncodeScalar(CharValue(s)) == s[..3]
  {
    ThreeOctets(s[0] - 0xE0, s[1] - 0x80, s[2] - 0x80);
  }

  lemma ScalarOfFour(s: seq<Byte>)
    requires CharLength(s) == 4
    ensures EncodeScalar(CharValue(s)) == s[..4]
  {
    FourOctets(s[0] - 0xF0, s[1] - 0x80, s[2] - 0x80, s[3] - 0x80);
  }

  lemma ScalarOfChar(s: seq<Byte>)
    requires CharLength(s) > 0
    ensures EncodeScalar(CharValue(s)) == s[..CharLength(s)]
  {
    hide EncodeScalar, CharLength, CharValue;
    var n := CharLength(s);
    if n <= 2 { ScalarOfShortChar(s); } else if n == 3 { ScalarOfThree(s); } else { ScalarOfFour(s); }
  }

  /** Decoding undoes encoding, for every sequence of scalar values. */
  lemma {:induction false} DecodeEncode(cs: seq<Scalar>)
    ensures Decode(Encode(cs)) == cs
    ensures WellFormed(Encode(cs))
  {
    if cs != [] {
      hide EncodeScalar, CharLength, CharValue;
      var e, rest := EncodeScalar(cs[0]), Encode(cs[1..]);
      CharOfScalar(cs[0], rest);
      assert (e + rest)[|e|..] == rest;
      DecodeEncode(cs[1..]);
    }
  }

  lemma WellFormedStep(s: seq<Byte>)
    requires WellFormed(s) && s != []
    ensures CharLength(s) > 0 && WellFormed(s[CharLength(s)..])
    ensures Decode(s) == [CharValue(s)] + Decode(s[CharLength(s)..])
    ensures s == EncodeScalar(CharValue(s)) + s[CharLength(s)..]
  {
    ScalarOfChar(s);
    hide EncodeScalar, CharLength, CharValue;
    assert s == s[..CharLength(s)] + s[CharLength(s)..];
  }

  lemma {:induction false} EncodeDecode(s: seq<Byte>)
    requires WellFormed(s)
    ensures Encode(Decode(s)) == s
    decreases |s|
  {
    if s == [] {
      assert Decode(s) == [];
    } else {
      WellFormedStep(s);
      hide *;
      var rest := s[CharLength(s)..];
      EncodeDecode(rest);
      EncodeCons(CharValue(s), Decode(rest));
    }
  }

  /** The re-encoding test of the source accepts exactly the grammar of section 4. */
  lemma RoundTripIffWellFormed(s: seq<Byte>)
    ensures Encode(Decode(s)) == s <==> WellFormed(s)
  {
    if Encode(Decode(s)) == s {
      DecodeEncode(Decode(s));
    } else if WellFormed(s) {
      EncodeDecode(s);
    }
  }

  lemma Associative(x: seq<Byte>, y: seq<Byte>, z: seq<Byte>)
    ensures x + (y + z) == (x + y) + z
  {
  }

  lemma {:induction false} EncodeConcat(a: seq<Scalar>, b: seq<Scalar>)
    ensures Encode(a + b) == Encode(a) + Encode(b)
  {
    hide EncodeScalar;
    if a == [] {
      assert a + b == b;
    } else {
      EncodeConcat(a[1..], b);
      assert (a + b)[1..] == a[1..] + b && (a + b)[0] == a[0];
      Associative(EncodeScalar(a[0]), Encode(a[1..]), Encode(b));
    }
  }

  lemma {:induction false} EncodeCons(c: Scalar, cs: seq<Scalar>)
    ensures Encode([c] + cs) == EncodeScalar(c) + Encode(cs)
  {
    hide EncodeScalar;
    assert ([c] + cs)[1..] == cs;
  }

  lemma {:induction false} EncodePrefix(cs: seq<Scalar>, k: nat)
    requires k <= |cs|
    ensures Encode(cs[..k]) <= Encode(cs)
    ensures Encode(cs) == Encode(cs[..k]) + Encode(cs[k..])
  {
    hide Encode;
    EncodeConcat(cs[..k], cs[k..]);
    assert cs[..k] + cs[k..] == cs;
  }
}

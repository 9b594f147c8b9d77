/** JavaScript strings: sequences of UTF-16 code units, walked by code point. */
module Utf16 {
  import opened Utf8

  type CodeUnit = u: int | 0 <= u < 0x10000
  type CodePoint = p: int | 0 <= p <= 0x10FFFF

  predicate IsHigh(u: CodePoint) { 0xD800 <= u <= 0xDBFF }
  predicate IsLow(u: CodePoint) { 0xDC00 <= u <= 0xDFFF }

  function UnitsOf(p: CodePoint): (us: seq<CodeUnit>)
    ensures 1 <= |us| <= 2
  {
    if p < 0x10000 then [p]
    else [0xD800 + (p - 0x10000) / 0x400, 0xDC00 + (p - 0x10000) % 0x400]
  }

  /** `points.join('')`, and what `Buffer.toString` builds from decoded scalars. */
  function Units(ps: seq<CodePoint>): (us: seq<CodeUnit>) {
    if ps == [] then [] else UnitsOf(ps[0]) + Units(ps[1..])
  }

  /** `Array.from(text)`: a surrogate pair is one element, a lone surrogate stands alone. */
  function CodePoints(us: seq<CodeUnit>): (ps: seq<CodePoint>)
    decreases |us|
  {
    if us == [] then []
    else if |us| >= 2 && IsHigh(us[0]) && IsLow(us[1]) then
      [Paired(us[0], us[1])] + CodePoints(us[2..])
    else [us[0] as int] + CodePoints(us[1..])
  }

  /** A lone surrogate has no UTF-8 form; `Buffer.from` writes U+FFFD for it. */
  function Scrub(ps: seq<CodePoint>): (cs: seq<Scalar>) {
    if ps == [] then []
    else [if IsHigh(ps[0]) || IsLow(ps[0]) then REPLACEMENT else ps[0] as int] + Scrub(ps[1..])
  }

  /** `Buffer.toString('utf8')`. */
  function ToText(bytes: seq<Byte>): (us: seq<CodeUnit>) { Units(Decode(bytes)) }

  /** `Buffer.from(text, 'utf8')`. */
  function FromText(us: seq<CodeUnit>): (bytes: seq<Byte>) { Encode(Scrub(CodePoints(us))) }

  /** No unpaired surrogate anywhere: the string is legal JSON text. */
  predicate WellFormedText(us: seq<CodeUnit>) {
    forall p | p in CodePoints(us) :: !IsHigh(p) && !IsLow(p)
  }

  function Paired(high: CodeUnit, low: CodeUnit): (p: CodePoint)
    requires IsHigh(high) && IsLow(low)
  {
    var top: int := high - 0xD800;
    0x10000 + top * 0x400 + (low - 0xDC00)
  }

  lemma PairSplits(p: CodePoint)
    requires 0x10000 <= p
    ensures IsHigh(UnitsOf(p)[0]) && IsLow(UnitsOf(p)[1])
    ensures Paired(UnitsOf(p)[0], UnitsOf(p)[1]) == p
  {
  }

  /** Walking the text of scalars gives the scalars back: no pair is ever split or merged. */
  lemma {:induction false} CodePointsOfUnits(cs: seq<Scalar>)
    ensures CodePoints(Units(cs)) == cs
    ensures Scrub(cs) == cs
  {
    if cs != [] {
      var u, rest := UnitsOf(cs[0]), Units(cs[1..]);
      CodePointsOfUnits(cs[1..]);
      assert (u + rest)[|u|..] == rest;
      if cs[0] >= 0x10000 { PairSplits(cs[0]); }
    }
  }

  lemma TextOfScalars(cs: seq<Scalar>)
    ensures FromText(Units(cs)) == Encode(cs)
    ensures WellFormedText(Units(cs))
  {
    CodePointsOfUnits(cs);
  }
}

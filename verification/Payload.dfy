/** Showing an event payload: the decoded body, and the 160-character preview of a list row
    (apps/control-api/src/events/event-payload.ts). */
module Payload {
  import opened Domain
  import opened Utf8
  import opened Utf16
  import opened Base64

  const PREVIEW_MAX_CHARS: nat := 160
  const PREVIEW_READ_BYTES: nat := PREVIEW_MAX_CHARS * 4

  datatype Encoding = Utf8Text | Base64Text
  datatype Body = Body(body: seq<CodeUnit>, encoding: Encoding)

  /** UTF-8 when the bytes survive a round trip through it, base 64 otherwise. */
  function DecodePayload(raw: seq<Byte>): (r: Body) {
    var text := ToText(raw);
    if FromText(text) == raw then Body(text, Utf8Text) else Body(ToBase64(raw), Base64Text)
  }

  /** What a reader does with the labelled body to get the delivered bytes back. */
  function Undo(b: Body): (r: Octets) {
    match b.encoding
    case Utf8Text => Octets(FromText(b.body))
    case Base64Text => FromBase64(b.body)
  }

  lemma SurvivesIffWellFormed(raw: seq<Byte>)
    ensures FromText(ToText(raw)) == Encode(Decode(raw))
    ensures FromText(ToText(raw)) == raw <==> WellFormed(raw)
  {
    TextOfScalars(Decode(raw));
    RoundTripIffWellFormed(raw);
  }

  /** `decodePayload` labels text exactly when the bytes are UTF-8, and never loses a byte. */
  lemma DecodePayloadIsFaithful(raw: seq<Byte>)
    ensures DecodePayload(raw).encoding == Utf8Text <==> WellFormed(raw)
    ensures Undo(DecodePayload(raw)) == Octets(raw)
    ensures WellFormedText(DecodePayload(raw).body)
  {
    SurvivesIffWellFormed(raw);
    if WellFormed(raw) {
      TextOfScalars(Decode(raw));
    } else {
      Base64RoundTrip(raw);
      AsciiIsWellFormedText(ToBase64(raw));
    }
  }

  lemma {:induction false} AsciiIsWellFormedText(us: seq<CodeUnit>)
    requires forall i | 0 <= i < |us| :: us[i] < 0x80
    ensures CodePoints(us) == us
  {
    if us != [] { AsciiIsWellFormedText(us[1..]); }
  }

  // ---- Dropping a code point the byte slice cut in half ----

  predicate IsContinuation(b: Byte) { b / 0x40 == 2 }

  /** Bytes announced by a lead byte; 0 for a byte that leads nothing. */
  function Announced(b: Byte): (n: nat)
    ensures n <= 4
  {
    if b < 0x80 then 1
    else if b / 0x20 == 6 then 2
    else if b / 0x10 == 14 then 3
    else if b / 8 == 30 then 4
    else 0
  }

  function TrailingContinuations(s: seq<Byte>): (n: nat)
    ensures n <= |s|
    ensures n < |s| ==> !IsContinuation(s[|s| - 1 - n])
  {
    if s != [] && IsContinuation(s[|s| - 1]) then 1 + TrailingContinuations(s[..|s| - 1]) else 0
  }

  function DropPartial(s: seq<Byte>): (r: seq<Byte>)
    ensures r <= s
  {
    var k := TrailingContinuations(s);
    if k == |s| || k >= 4 then s
    else if Announced(s[|s| - 1 - k]) <= k + 1 then s
    else s[..|s| - 1 - k]
  }

  /** The loop of `dropPartialTrailingSequence`, walking backwards over at most four bytes. */
  method DropPartialTrailingSequence(buffer: seq<Byte>) returns (r: seq<Byte>)
    ensures r == DropPartial(buffer)
  {
    var end, continuations := |buffer|, 0;
    assert buffer[..end] == buffer;
    while end > 0 && continuations < 4
      invariant 0 <= end <= |buffer| && 0 <= continuations <= 4
      invariant end + continuations == |buffer|
      invariant TrailingContinuations(buffer) == continuations + TrailingContinuations(buffer[..end])
    {
      var byte := buffer[end - 1];
      assert buffer[..end][..end - 1] == buffer[..end - 1];
      if IsContinuation(byte) {
        end, continuations := end - 1, continuations + 1;
      } else {
        var needed := Announced(byte);
        if needed == 0 || needed <= continuations { return buffer; }
        if needed == continuations + 1 { return buffer; }
        return buffer[..end - 1];
      }
    }
    return buffer;
  }

  /** A scalar's octets announce their own number, and all but the first are continuations. */
  lemma ShapeOfScalar(c: Scalar)
    ensures var e := EncodeScalar(c);
            Announced(e[0]) == |e| && !IsContinuation(e[0])
            && forall i | 1 <= i < |e| :: IsContinuation(e[i])
  {
  }

  lemma {:induction false} TrailingOfCut(before: seq<Byte>, e: seq<Byte>, j: nat)
    requires 1 <= j <= |e| && !IsContinuation(e[0])
    requires forall i | 1 <= i < |e| :: IsContinuation(e[i])
    ensures TrailingContinuations(before + e[..j]) == j - 1
  {
    var s := before + e[..j];
    assert s[|s| - 1] == e[j - 1];
    if j > 1 {
      TrailingOfCut(before, e, j - 1);
      assert s[..|s| - 1] == before + e[..j - 1];
    }
  }

  /** How many whole code points fit in the first `n` bytes. */
  function WholeWithin(cs: seq<Scalar>, n: nat): (k: nat)
    ensures k <= |cs|
  {
    if cs == [] || |EncodeScalar(cs[0])| > n then 0
    else 1 + WholeWithin(cs[1..], n - |EncodeScalar(cs[0])|)
  }

  /** The first `n` bytes are the whole code points plus a proper start of the next one. */
  lemma {:induction false} CutShape(cs: seq<Scalar>, n: nat)
    requires n < |Encode(cs)|
    ensures var k := WholeWithin(cs, n);
            var whole := Encode(cs[..k]);
            && k < |cs| && |whole| <= n < |whole| + |EncodeScalar(cs[k])|
            && Encode(cs)[..n] == whole + EncodeScalar(cs[k])[..n - |whole|]
  {
    hide EncodeScalar;
    var e := EncodeScalar(cs[0]);
    var rest := Encode(cs[1..]);
    assert Encode(cs) == e + rest;
    if |e| > n {
      assert (e + rest)[..n] == e[..n];
    } else {
      CutShape(cs[1..], n - |e|);
      var k := WholeWithin(cs[1..], n - |e|);
      assert cs[..k + 1][0] == cs[0] && cs[..k + 1][1..] == cs[1..][..k];
      assert cs[1..][k] == cs[k + 1];
      assert (e + rest)[..n] == e + rest[..n - |e|];
    }
  }

  /** After the bytes of one scalar, or a proper start of them, the partial part is what goes. */
  lemma {:induction false} DropAfterScalar(before: seq<Byte>, c: Scalar, j: nat)
    requires 1 <= j <= |EncodeScalar(c)|
    ensures var e := EncodeScalar(c);
            DropPartial(before + e[..j]) == if j == |e| then before + e else before
  {
    var e := EncodeScalar(c);
    ShapeOfScalar(c);
    hide EncodeScalar, IsContinuation, Announced;
    TrailingOfCut(before, e, j);
    var s := before + e[..j];
    assert s[|s| - j] == e[0];
    assert s[..|s| - j] == before;
    assert e[..|e|] == e;
  }

  lemma {:induction false} SplitLast(cs: seq<Scalar>)
    requires cs != []
    ensures var last := |cs| - 1;
            Encode(cs) == Encode(cs[..last]) + EncodeScalar(cs[last])
  {
    hide EncodeScalar;
    var last := |cs| - 1;
    EncodeConcat(cs[..last], [cs[last]]);
    assert cs[..last] + [cs[last]] == cs;
    assert [cs[last]][1..] == [];
  }

  /** Cutting valid UTF-8 anywhere and dropping the partial tail leaves exactly the whole code points. */
  lemma {:induction false} DropLeavesWholeCodePoints(cs: seq<Scalar>, n: nat)
    requires n < |Encode(cs)|
    ensures DropPartial(Encode(cs)[..n]) == Encode(cs[..WholeWithin(cs, n)])
  {
    hide EncodeScalar, DropPartial;
    CutShape(cs, n);
    var k := WholeWithin(cs, n);
    var whole := Encode(cs[..k]);
    var j := n - |whole|;
    if j > 0 {
      DropAfterScalar(whole, cs[k], j);
    } else {
      assert Encode(cs)[..n] == whole;
      DropOfWhole(cs[..k]);
    }
  }

  lemma {:induction false} DropOfWhole(cs: seq<Scalar>)
    ensures DropPartial(Encode(cs)) == Encode(cs)
  {
    if cs != [] {
      hide EncodeScalar, DropPartial;
      var c := cs[|cs| - 1];
      SplitLast(cs);
      DropAfterScalar(Encode(cs[..|cs| - 1]), c, |EncodeScalar(c)|);
      assert EncodeScalar(c)[..|EncodeScalar(c)|] == EncodeScalar(c);
    }
  }

  // ---- The preview ----

  datatype PayloadHead = PayloadHead(
    head: Option<seq<Byte>>, inlineBytes: Option<nat>, payloadSize: Option<nat>)

  datatype Preview = Preview(preview: Option<seq<CodeUnit>>, size: Option<nat>, truncated: bool)

  function NoPreview(size: Option<nat>): Preview { Preview(None, size, false) }

  function PreviewPayload(row: PayloadHead): (r: Preview) {
    if row.head.None? || row.inlineBytes.None? then NoPreview(row.payloadSize)
    else
      var head := row.head.value;
      var cutMidBody := row.inlineBytes.value > |head|;
      var candidate := if cutMidBody then DropPartial(head) else head;
      var text := ToText(candidate);
      if FromText(text) != candidate then NoPreview(row.payloadSize)
      else
        var points := CodePoints(text);
        var overLength := |points| > PREVIEW_MAX_CHARS;
        Preview(Some(if overLength then Units(points[..PREVIEW_MAX_CHARS]) else text),
                row.payloadSize, cutMidBody || overLength)
  }

  /** `substring(payload_raw from 1 for 640)` and `octet_length(payload_raw)`. */
  function HeadOf(body: seq<Byte>, size: Option<nat>): (row: PayloadHead) {
    PayloadHead(Some(if |body| <= PREVIEW_READ_BYTES then body else body[..PREVIEW_READ_BYTES]),
                Some(|body|), size)
  }

  function FirstChars(cs: seq<Scalar>): (r: seq<Scalar>) {
    if |cs| <= 160 then cs else cs[..160]
  }

  /** What the function answers once its candidate bytes are known to encode `kept`. */
  lemma {:induction false} PreviewOfValidCandidate(row: PayloadHead, kept: seq<Scalar>)
    requires row.head.Some? && row.inlineBytes.Some?
    requires var cut := row.inlineBytes.value > |row.head.value|;
             (if cut then DropPartial(row.head.value) else row.head.value) == Encode(kept)
    ensures PreviewPayload(row)
            == Preview(Some(Units(FirstChars(kept))), row.payloadSize,
                       row.inlineBytes.value > |row.head.value| || |kept| > PREVIEW_MAX_CHARS)
  {
    DecodeEncode(kept);
    TextOfScalars(kept);
    CodePointsOfUnits(kept);
  }

  /** Of any row: the size shown is the recorded one; without its bytes there is no preview; where there is
      none nothing counts as truncated; and a preview of a body that was cut does. */
  lemma PreviewOfAnyRow(row: PayloadHead)
    ensures var p := PreviewPayload(row);
            && p.size == row.payloadSize
            && (row.head.None? || row.inlineBytes.None? ==> p.preview.None?)
            && (p.preview.None? ==> !p.truncated)
            && (p.preview.Some? && row.inlineBytes.value > |row.head.value| ==> p.truncated)
  {
    hide ToText, FromText, CodePoints, Units, DropPartial;
  }

  /** 640 bytes hold at least 160 whole code points, and more than 640 bytes hold more than 160. */
  lemma {:induction false} EnoughWhole(cs: seq<Scalar>)
    requires |Encode(cs)| > 640
    ensures WholeWithin(cs, 640) >= 160
    ensures |cs| > 160
  {
    CutShape(cs, PREVIEW_READ_BYTES);
  }

  lemma {:induction false} PreviewOfShortBody(cs: seq<Scalar>, size: Option<nat>)
    requires |Encode(cs)| <= PREVIEW_READ_BYTES
    ensures PreviewPayload(HeadOf(Encode(cs), size))
            == Preview(Some(Units(FirstChars(cs))), size, |cs| > PREVIEW_MAX_CHARS)
  {
    hide Encode, DropPartial, PreviewPayload, Units;
    PreviewOfValidCandidate(HeadOf(Encode(cs), size), cs);
  }

  lemma {:induction false} PreviewOfLongBody(cs: seq<Scalar>, size: Option<nat>)
    requires |Encode(cs)| > PREVIEW_READ_BYTES
    ensures PreviewPayload(HeadOf(Encode(cs), size))
            == Preview(Some(Units(FirstChars(cs))), size, |cs| > PREVIEW_MAX_CHARS)
  {
    hide Encode, DropPartial, WholeWithin, PreviewPayload, Units;
    var row := HeadOf(Encode(cs), size);
    var k := WholeWithin(cs, PREVIEW_READ_BYTES);
    EnoughWhole(cs);
    DropLeavesWholeCodePoints(cs, PREVIEW_READ_BYTES);
    PreviewOfValidCandidate(row, cs[..k]);
    assert FirstChars(cs[..k]) == FirstChars(cs);
  }

  /** For every valid body, the 640-byte head yields exactly its first 160 code points, and
      `truncated` says exactly whether there were more. */
  lemma {:induction false} PreviewIsFirstChars(cs: seq<Scalar>, size: Option<nat>)
    ensures PreviewPayload(HeadOf(Encode(cs), size))
            == Preview(Some(Units(FirstChars(cs))), size, |cs| > 160)
    ensures WellFormedText(Units(FirstChars(cs)))
  {
    hide Encode, PreviewPayload, Units, FirstChars, HeadOf;
    TextOfScalars(FirstChars(cs));
    if |Encode(cs)| <= PREVIEW_READ_BYTES {
      PreviewOfShortBody(cs, size);
    } else {
      PreviewOfLongBody(cs, size);
    }
  }

  /** Whatever the bytes, a preview that is shown re-encodes to a prefix of the body. */
  lemma {:induction false} PreviewNeverInvents(body: seq<Byte>, size: Option<nat>)
    ensures var p := PreviewPayload(HeadOf(body, size)).preview;
            p.Some? ==> FromText(p.value) <= body && WellFormedText(p.value)
                        && |CodePoints(p.value)| <= PREVIEW_MAX_CHARS
  {
    hide Encode, Decode, CodePoints, Units, Scrub;
    var row := HeadOf(body, size);
    var head := row.head.value;
    var candidate := if |body| > |head| then DropPartial(head) else head;
    if FromText(ToText(candidate)) == candidate {
      SurvivesIffWellFormed(candidate);
      var kept := Decode(candidate);
      PreviewOfValidCandidate(row, kept);
      EncodePrefix(kept, |FirstChars(kept)|);
      assert FirstChars(kept) == kept[..|FirstChars(kept)|];
      TextOfScalars(FirstChars(kept));
      CodePointsOfUnits(FirstChars(kept));
      assert candidate <= head <= body;
    }
  }

  // ---- Bodies that are not UTF-8 ----

  /** A whole body that is not UTF-8 has no preview. */
  lemma {:induction false} NoPreviewOfInvalidBody(body: seq<Byte>, size: Option<nat>)
    requires |body| <= PREVIEW_READ_BYTES
    ensures PreviewPayload(HeadOf(body, size)).preview.Some? <==> WellFormed(body)
  {
    SurvivesIffWellFormed(body);
  }

  /** A lead byte with some of the continuation bytes it announces. */
  predicate IsUnfinished(tail: seq<Byte>) {
    1 <= |tail| < Announced(tail[0]) && forall i | 1 <= i < |tail| :: IsContinuation(tail[i])
  }

  /** The bytes are UTF-8 up to a sequence they leave unfinished. */
  predicate WellFormedStart(s: seq<Byte>) {
    WellFormed(s) || exists k | 0 <= k < |s| :: WellFormed(s[..k]) && IsUnfinished(s[k..])
  }

  lemma {:induction false} TrailingAreContinuations(s: seq<Byte>)
    ensures forall i | |s| - TrailingContinuations(s) <= i < |s| :: IsContinuation(s[i])
  {
    if s != [] && IsContinuation(s[|s| - 1]) { TrailingAreContinuations(s[..|s| - 1]); }
  }

  lemma {:induction false} DropOfUnfinished(s: seq<Byte>, k: nat)
    requires k < |s| && IsUnfinished(s[k..])
    ensures DropPartial(s) == s[..k]
  {
    var tail := s[k..];
    assert s == s[..k] + tail[..|tail|];
    assert !IsContinuation(tail[0]);
    TrailingOfCut(s[..k], tail, |tail|);
  }

  lemma {:induction false} DropIsUnfinished(s: seq<Byte>)
    ensures DropPartial(s) == s || IsUnfinished(s[|DropPartial(s)|..])
  {
    TrailingAreContinuations(s);
  }

  lemma {:induction false} DropSucceedsIff(s: seq<Byte>)
    ensures WellFormed(DropPartial(s)) <==> WellFormedStart(s)
  {
    DropIsUnfinished(s);
    if WellFormed(s) {
      RoundTripIffWellFormed(s);
      DropOfWhole(Decode(s));
    } else if k :| 0 <= k < |s| && WellFormed(s[..k]) && IsUnfinished(s[k..]) {
      DropOfUnfinished(s, k);
    }
    hide DropPartial, WellFormed, IsUnfinished;
    var k := |DropPartial(s)|;
    assert s[..k] == DropPartial(s);
    assert DropPartial(s) == s || k < |s|;
  }

  /** A body longer than the head is judged by its first 640 bytes alone: it has a preview exactly when
      they are UTF-8 up to a sequence they leave unfinished, whatever follows them. */
  lemma {:induction false} LongBodyHasPreviewIff(body: seq<Byte>, size: Option<nat>)
    requires |body| > 640
    ensures PreviewPayload(HeadOf(body, size)).preview.Some? <==> WellFormedStart(body[..640])
  {
    hide DropPartial, WellFormed, WellFormedStart, FromText, ToText;
    DropSucceedsIff(body[..PREVIEW_READ_BYTES]);
    SurvivesIffWellFormed(DropPartial(body[..PREVIEW_READ_BYTES]));
  }

  lemma {:induction false} AsciiThen(ascii: seq<Byte>, rest: seq<Byte>)
    requires forall i | 0 <= i < |ascii| :: ascii[i] < 0x80
    ensures WellFormed(ascii + rest) <==> WellFormed(rest)
  {
    if ascii == [] {
      assert ascii + rest == rest;
    } else {
      assert (ascii + rest)[1..] == ascii[1..] + rest;
      AsciiThen(ascii[1..], rest);
    }
  }

  /** So a body that is not UTF-8 may be previewed: here only its last byte is wrong. */
  lemma InvalidBodyIsPreviewed(size: Option<nat>)
    ensures var body: seq<Byte> := seq(PREVIEW_READ_BYTES, i => 0x61) + [0xFF];
            !WellFormed(body) && PreviewPayload(HeadOf(body, size)).preview.Some?
  {
    var head: seq<Byte> := seq(PREVIEW_READ_BYTES, i => 0x61);
    var body: seq<Byte> := head + [0xFF];
    AsciiThen(head, [0xFF]);
    AsciiThen(head, []);
    assert head + [] == head && body[..PREVIEW_READ_BYTES] == head;
    assert CharLength([0xFF]) == 0;
    hide PreviewPayload;
    LongBodyHasPreviewIff(body, size);
  }
}

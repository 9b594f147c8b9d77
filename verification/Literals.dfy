/** Why a literal address is refused: metadata services, and the IPv4 address an IPv6 one carries
    (apps/control-api/src/endpoints/endpoint-url.ts:102-222). */
module Literals {
  import opened Domain
  import opened Ipv6
  import opened Ipv6Proofs
  import opened Cidr

  predicate IsAddress(b: seq<int>) { |b| == 16 && forall i | 0 <= i < 16 :: 0 <= b[i] < 256 }

  const MAPPED: seq<int> := ZeroBytes(10) + [0xFF, 0xFF]
  const SIX_TO_FOUR: seq<int> := [0x20, 0x02]
  const NAT64: seq<int> := [0x00, 0x64, 0xFF, 0x9B]

  /** The metadata services of the large clouds, two of them at IPv4 addresses. */
  const METADATA4: seq<seq<int>> := [[169, 254, 169, 254], [100, 100, 100, 200]]
  const METADATA6: seq<int> := [0xFD, 0x00, 0x0E, 0xC2] + ZeroBytes(10) + [0x02, 0x54]

  datatype Reason6 =
    | Unspecified6 | Loopback6 | LinkLocal6 | Multicast6 | Private6 | Discard | Documentation6 | SpecialPurpose

  datatype Refusal =
    | Metadata
    | Range(reason: Reason)
    | Embedding(quad: seq<int>, inner: Refusal)
    | Range6(reason6: Reason6)

  function MappedIpv4(b: seq<int>): (q: Option<seq<int>>)
    requires IsAddress(b)
    ensures q.Some? ==> IsQuad(q.value)
  {
    if b[..12] == MAPPED then Some(b[12..]) else None
  }

  /** The address a 6to4 or NAT64 gateway would send on to. */
  function TransitionIpv4(b: seq<int>): (q: Option<seq<int>>)
    requires IsAddress(b)
    ensures q.Some? ==> IsQuad(q.value)
  {
    if MappedIpv4(b).Some? then None
    else if b[..2] == SIX_TO_FOUR then Some(b[2..6])
    else if b[..4] == NAT64 then Some(b[12..])
    else None
  }

  /** `metadataReason(b) ?? classifyIpv4(b)`. */
  function JudgeIpv4(q: seq<int>): (r: Option<Refusal>)
    requires IsQuad(q)
  {
    if q in METADATA4 then Some(Metadata)
    else
      var reason := ClassifyIpv4(q);
      if reason.Some? then Some(Range(reason.value)) else None
  }

  /** The masks of the source read the top bits of a byte, or its low half. */
  function ClassifyIpv6(b: seq<int>): (r: Option<Reason6>)
    requires IsAddress(b)
  {
    if b == ZeroBytes(16) then Some(Unspecified6)
    else if b == ZeroBytes(15) + [1] then Some(Loopback6)
    else if b[0] == 0xFE && b[1] / 0x40 == 2 then Some(LinkLocal6)
    else if b[0] == 0xFF && b[1] % 0x10 == 2 then Some(LinkLocal6)
    else if b[0] == 0xFF then Some(Multicast6)
    else if b[0] / 2 == 0x7E then Some(Private6)
    else if b[0] == 0x01 && b[1] == 0x00 && b[2..8] == ZeroBytes(6) then Some(Discard)
    else if b[0] == 0x20 && b[1] == 0x01 && b[2] == 0x0D && b[3] == 0xB8 then Some(Documentation6)
    else if b[0] == 0x20 && b[1] == 0x01 && b[2] <= 0x01 then Some(SpecialPurpose)
    else None
  }

  function JudgeIpv6(b: seq<int>): (r: Option<Refusal>)
    requires IsAddress(b)
  {
    if b == METADATA6 then Some(Metadata)
    else
      var mapped := MappedIpv4(b);
      if mapped.Some? then JudgeIpv4(mapped.value)
      else
        var transition := TransitionIpv4(b);
        var inner := if transition.Some? then JudgeIpv4(transition.value) else None;
        if inner.Some? then Some(Embedding(transition.value, inner.value))
        else
          var reason := ClassifyIpv6(b);
          if reason.Some? then Some(Range6(reason.value)) else None
  }

  lemma {:induction false} GroupBytesAreBytes(gs: seq<string>)
    ensures forall i | 0 <= i < |GroupBytes(gs)| :: 0 <= GroupBytes(gs)[i] < 256
  {
    if gs != [] { GroupBytesAreBytes(gs[..|gs| - 1]); }
  }

  lemma ParsedIsAddress(literal: string)
    ensures Ipv6Bytes(literal).Some? ==> IsAddress(Ipv6Bytes(literal).value)
  {
    if Ipv6Bytes(literal).Some? {
      GroupBytesAreBytes(Expand(QuadToGroups(literal[..Find(literal, '%')]).value).value);
    }
  }

  /** `classifyLiteral`, past the shape check of `isIP`. */
  function ClassifyLiteral(host: string): (r: Option<Refusal>) {
    var v4 := Ipv4Bytes(host);
    if v4.Some? then JudgeIpv4(v4.value)
    else
      var v6 := Ipv6Bytes(host);
      ParsedIsAddress(host);
      if v6.None? then None else JudgeIpv6(v6.value)
  }

  // ---- A spelling of an IPv6 address is not one of an IPv4 address ----

  lemma {:induction false} SplitCovers(s: string, c: char, i: nat)
    requires i < |s| && s[i] != c
    ensures exists k | 0 <= k < |Split(s, c)| :: s[i] in Split(s, c)[k]
  {
    var rest, parts := Split(s[1..], c), Split(s, c);
    if i == 0 {
      assert s[i] in parts[0];
    } else {
      SplitCovers(s[1..], c, i - 1);
      var k :| 0 <= k < |rest| && s[i] in rest[k];
      if s[0] == c { assert parts[k + 1] == rest[k]; }
      else if k > 0 { assert parts[k] == rest[k]; }
      else { assert s[i] in parts[0]; }
    }
  }

  lemma ColonIsNoQuad(s: string, i: nat)
    requires i < |s| && s[i] == ':'
    ensures Ipv4Bytes(s).None?
  {
    SplitCovers(s, '.', i);
    var k :| 0 <= k < |Split(s, '.')| && ':' in Split(s, '.')[k];
    assert !IsOctet(Split(s, '.')[k]);
  }

  lemma JoinHas(parts: seq<string>, c: char)
    requires |parts| >= 2
    ensures c in Join(parts, c)
  {
  }

  lemma SpellingHasColon(s: Spelling)
    requires Legal(s)
    ensures ':' in Render(s)
  {
    hide AllGroups, QuadText;
    if s.gap {
      assert "::"[0] in Front(s.head, s.gap, s.tail);
    } else if s.quad.None? {
      JoinHas(s.head, ':');
      hide Join;
    }
  }

  lemma JudgedAsIpv6(s: Spelling)
    requires Legal(s)
    ensures IsAddress(Address(s)) && ClassifyLiteral(Render(s)) == JudgeIpv6(Address(s))
  {
    hide Render, Address, Ipv4Bytes, Ipv6Bytes, JudgeIpv6;
    EverySpellingParses(s);
    ParsedIsAddress(Render(s));
    SpellingHasColon(s);
    var i :| 0 <= i < |Render(s)| && Render(s)[i] == ':';
    ColonIsNoQuad(Render(s), i);
  }

  // ---- Refused exactly for the IPv4 address inside ----

  /** The address lies in a registered block. */
  ghost predicate InARange(q: seq<int>)
    requires IsQuad(q)
  {
    exists i | 0 <= i < |BLOCKS| :: Contains(BLOCKS[i], q)
  }

  /** Metadata addresses are named first, and every one of them is in a range as well. */
  lemma JudgedIffInARange(q: seq<int>)
    requires IsQuad(q)
    ensures JudgeIpv4(q).Some? <==> InARange(q)
  {
    assert q in METADATA4 ==> ClassifyIpv4(q).Some?;
    if ClassifyIpv4(q).Some? {
      ClassifiedIffInABlock(q, ClassifyIpv4(q).value);
    }
    hide ClassifyIpv4, Contains;
    if InARange(q) {
      var i :| 0 <= i < |BLOCKS| && Contains(BLOCKS[i], q);
      ClassifiedIffInABlock(q, BLOCKS[i].reason);
    }
  }

  /** The two IPv4 metadata services are called that, by any of their spellings, and every other refusal
      names a block the address lies in. */
  lemma JudgedReason(q: seq<int>)
    requires IsQuad(q)
    ensures JudgeIpv4(q) == Some(Metadata) <==> q == [169, 254, 169, 254] || q == [100, 100, 100, 200]
    ensures forall r | JudgeIpv4(q) == Some(Range(r)) ::
              exists i | 0 <= i < |BLOCKS| :: Contains(BLOCKS[i], q) && BLOCKS[i].reason == r
  {
    assert METADATA4[0] == [169, 254, 169, 254] && METADATA4[1] == [100, 100, 100, 200];
    if ClassifyIpv4(q).Some? { ClassifiedIffInABlock(q, ClassifyIpv4(q).value); }
    hide ClassifyIpv4, Contains;
  }

  /** So is the IPv6 one, and its mapped and no other IPv6 addresses. */
  lemma Judged6Metadata(b: seq<int>)
    requires IsAddress(b)
    ensures JudgeIpv6(b) == Some(Metadata) <==>
            || b == [0xFD, 0x00, 0x0E, 0xC2] + ZeroBytes(10) + [0x02, 0x54]
            || b == MAPPED + [169, 254, 169, 254] || b == MAPPED + [100, 100, 100, 200]
  {
    if b[..12] == MAPPED {
      assert b == MAPPED + b[12..];
      JudgedReason(b[12..]);
      assert b[0] == b[..12][0] == 0;
    }
    assert forall q: seq<int> :: (MAPPED + q)[..12] == MAPPED && (MAPPED + q)[12..] == q;
    hide JudgeIpv4, ClassifyIpv6, TransitionIpv4;
  }

  /** A dotted quad is refused exactly when it lies in a registered block. */
  lemma QuadRefusedIff(q: seq<int>)
    requires IsQuad(q)
    ensures ClassifyLiteral(QuadText(q)).Some? <==> InARange(q)
  {
    hide JudgeIpv4, JudgeIpv6, InARange, Ipv4Bytes, Ipv6Bytes, QuadText;
    QuadRoundTrip(q);
    JudgedIffInARange(q);
  }

  /** Every spelling of an IPv4-mapped address gets the verdict of the address it maps: it is refused
      exactly when that lies in a registered block. */
  lemma MappedRefusedIff(s: Spelling, q: seq<int>)
    requires Legal(s) && IsQuad(q) && Address(s) == MAPPED + q
    ensures ClassifyLiteral(Render(s)) == ClassifyLiteral(QuadText(q))
    ensures ClassifyLiteral(Render(s)).Some? <==> InARange(q)
  {
    hide InARange, ClassifyIpv6, JudgeIpv4, Ipv4Bytes, Ipv6Bytes, QuadText, Render, Legal;
    JudgedAsIpv6(s);
    QuadRoundTrip(q);
    QuadRefusedIff(q);
    assert (MAPPED + q)[..12] == MAPPED && (MAPPED + q)[12..] == q;
    assert (MAPPED + q)[0] != METADATA6[0];
  }

  /** A 6to4 address is refused exactly for the address in its next four bytes. */
  lemma SixToFourRefusedIff(s: Spelling)
    requires Legal(s) && Address(s)[..2] == SIX_TO_FOUR
    ensures IsQuad(Address(s)[2..6]) && (ClassifyLiteral(Render(s)).Some? <==> InARange(Address(s)[2..6]))
  {
    hide InARange, JudgeIpv4, Ipv4Bytes, Ipv6Bytes, Render, Legal, Address;
    JudgedAsIpv6(s);
    var b := Address(s);
    assert b[0] == b[..2][0] && b[1] == b[..2][1];
    assert b[..12][0] != MAPPED[0];
    JudgedIffInARange(b[2..6]);
  }

  /** An address that starts as NAT64 addresses do is refused exactly for the address in its last four
      bytes, whatever the eight bytes between are. */
  lemma Nat64RefusedIff(s: Spelling)
    requires Legal(s) && Address(s)[..4] == NAT64
    ensures IsQuad(Address(s)[12..]) && (ClassifyLiteral(Render(s)).Some? <==> InARange(Address(s)[12..]))
  {
    hide InARange, JudgeIpv4, Ipv4Bytes, Ipv6Bytes, Render, Legal, Address;
    JudgedAsIpv6(s);
    var b := Address(s);
    assert forall i | 0 <= i < 4 :: b[i] == b[..4][i];
    assert b[..12][1] != MAPPED[1] && b[..2][0] != SIX_TO_FOUR[0];
    JudgedIffInARange(b[12..]);
  }

  // ---- Every address ----

  /** The first `bits` bits of the address are those of the network. */
  predicate InPrefix(b: seq<int>, network: seq<int>, bits: nat)
    requires |b| == 16 && |network| == 16 && bits <= 128
  {
    && b[..bits / 8] == network[..bits / 8]
    && (bits % 8 != 0 ==> b[bits / 8] / Pow2(8 - bits % 8) == network[bits / 8] / Pow2(8 - bits % 8))
  }

  /** The address of the given first bytes, and zeros. */
  function Net(first: seq<int>): (b: seq<int>)
    requires |first| <= 16
    ensures |b| == 16
  {
    first + ZeroBytes(16 - |first|)
  }

  /** ff02::/16, ff12::/16 and so on: multicast of link-local scope, whatever its flags. */
  predicate LinkLocalMulticast(b: seq<int>)
    requires |b| == 16
  {
    exists flags | 0 <= flags < 16 :: InPrefix(b, Net([0xFF, flags * 16 + 2]), 16)
  }

  /** The IPv6 tests name exactly these blocks. */
  lemma Classified6IffInABlock(b: seq<int>)
    requires IsAddress(b)
    ensures ClassifyIpv6(b) == Some(Unspecified6) <==> InPrefix(b, Net([]), 128)
    ensures ClassifyIpv6(b) == Some(Loopback6) <==> InPrefix(b, ZeroBytes(15) + [1], 128)
    ensures ClassifyIpv6(b) == Some(LinkLocal6) <==> InPrefix(b, Net([0xFE, 0x80]), 10) || LinkLocalMulticast(b)
    ensures ClassifyIpv6(b) == Some(Multicast6) <==> InPrefix(b, Net([0xFF]), 8) && !LinkLocalMulticast(b)
    ensures ClassifyIpv6(b) == Some(Private6) <==> InPrefix(b, Net([0xFC]), 7)
    ensures ClassifyIpv6(b) == Some(Discard) <==> InPrefix(b, Net([0x01]), 64)
    ensures ClassifyIpv6(b) == Some(Documentation6) <==> InPrefix(b, Net([0x20, 0x01, 0x0D, 0xB8]), 32)
    ensures ClassifyIpv6(b) == Some(SpecialPurpose) <==> InPrefix(b, Net([0x20, 0x01]), 23)
  {
    WholeAddress(b);
    PartBytes(b);
    WholeBytes(b);
    ScopedMulticast(b);
    hide InPrefix, Net, LinkLocalMulticast;
    assert b == ZeroBytes(16) ==> b[0] == 0;
    assert b == ZeroBytes(15) + [1] ==> b[0] == 0 && b[15] == 1;
  }

  lemma WholeAddress(b: seq<int>)
    requires IsAddress(b)
    ensures InPrefix(b, Net([]), 128) <==> b == ZeroBytes(16)
    ensures InPrefix(b, ZeroBytes(15) + [1], 128) <==> b == ZeroBytes(15) + [1]
  {
    assert b[..16] == b && Net([]) == ZeroBytes(16);
    assert Net([])[..16] == Net([]) && (ZeroBytes(15) + [1])[..16] == ZeroBytes(15) + [1];
  }

  lemma PartBytes(b: seq<int>)
    requires IsAddress(b)
    ensures InPrefix(b, Net([0xFE, 0x80]), 10) <==> b[0] == 0xFE && b[1] / 0x40 == 2
    ensures InPrefix(b, Net([0xFC]), 7) <==> b[0] / 2 == 0x7E
    ensures InPrefix(b, Net([0x20, 0x01]), 23) <==> b[0] == 0x20 && b[1] == 0x01 && b[2] <= 0x01
  {
    assert Pow2(1) == 2 && Pow2(6) == 0x40 by { assert Pow2(2) == 4 && Pow2(4) == 16; }
    assert b[..1] == [b[0]] && b[..2] == [b[0], b[1]] && b[..0] == [];
    assert Net([0xFE, 0x80])[..1] == [0xFE] && Net([0xFC])[..0] == [] && Net([0x20, 0x01])[..2] == [0x20, 0x01];
  }

  lemma WholeBytes(b: seq<int>)
    requires IsAddress(b)
    ensures InPrefix(b, Net([0xFF]), 8) <==> b[0] == 0xFF
    ensures InPrefix(b, Net([0x01]), 64) <==> b[0] == 0x01 && b[1] == 0x00 && b[2..8] == ZeroBytes(6)
    ensures InPrefix(b, Net([0x20, 0x01, 0x0D, 0xB8]), 32)
            <==> b[0] == 0x20 && b[1] == 0x01 && b[2] == 0x0D && b[3] == 0xB8
  {
    assert b[..1] == [b[0]] && b[..4] == [b[0], b[1], b[2], b[3]] && b[..8] == [b[0], b[1]] + b[2..8];
    assert Net([0xFF])[..1] == [0xFF] && Net([0x20, 0x01, 0x0D, 0xB8])[..4] == [0x20, 0x01, 0x0D, 0xB8];
    assert Net([0x01])[..8] == [0x01, 0x00] + ZeroBytes(6);
    if b[..8] == [0x01, 0x00] + ZeroBytes(6) {
      assert b[0] == b[..8][0] && b[1] == b[..8][1] && b[2..8] == b[..8][2..];
    }
  }

  lemma ScopedMulticast(b: seq<int>)
    requires IsAddress(b)
    ensures LinkLocalMulticast(b) <==> b[0] == 0xFF && b[1] % 0x10 == 2
  {
    forall flags | 0 <= flags < 16
      ensures InPrefix(b, Net([0xFF, flags * 16 + 2]), 16) <==> b[0] == 0xFF && b[1] == flags * 16 + 2
    {
      assert b[..2] == [b[0], b[1]] && Net([0xFF, flags * 16 + 2])[..2] == [0xFF, flags * 16 + 2];
    }
    hide InPrefix;
    if b[0] == 0xFF && b[1] % 0x10 == 2 {
      assert 0 <= b[1] / 16 < 16 && b[1] == b[1] / 16 * 16 + 2;
    }
  }

  /** Some IPv6 block of those above. */
  predicate InABlock6(b: seq<int>)
    requires |b| == 16
  {
    || InPrefix(b, Net([]), 128) || InPrefix(b, ZeroBytes(15) + [1], 128) || InPrefix(b, Net([0xFE, 0x80]), 10)
    || InPrefix(b, Net([0xFF]), 8) || InPrefix(b, Net([0xFC]), 7) || InPrefix(b, Net([0x01]), 64)
    || InPrefix(b, Net([0x20, 0x01, 0x0D, 0xB8]), 32) || InPrefix(b, Net([0x20, 0x01]), 23)
  }

  lemma JudgedIff(b: seq<int>)
    requires IsAddress(b) && MappedIpv4(b).None? && TransitionIpv4(b).None?
    ensures JudgeIpv6(b).Some? <==> InABlock6(b)
  {
    Classified6IffInABlock(b);
    ScopedMulticast(b);
    PartBytes(b);
    WholeBytes(b);
    assert b == METADATA6 ==> b[0] == 0xFD;
    hide ClassifyIpv6, InPrefix, Net, LinkLocalMulticast, MappedIpv4, TransitionIpv4, IsAddress, JudgeIpv4;
    var reason := ClassifyIpv6(b);
    if reason.Some? { match reason.value { case _ => } }
  }

  /** Every spelling of every address that carries no IPv4 one is refused exactly when the address lies in
      one of the registered IPv6 blocks. */
  lemma Ipv6RefusedIff(s: Spelling)
    requires Legal(s)
    ensures IsAddress(Address(s))
    ensures MappedIpv4(Address(s)).None? && TransitionIpv4(Address(s)).None? ==>
              (ClassifyLiteral(Render(s)).Some? <==> InABlock6(Address(s)))
  {
    hide Render, Address, JudgeIpv6, InABlock6, Legal, MappedIpv4, TransitionIpv4, ClassifyLiteral;
    JudgedAsIpv6(s);
    if MappedIpv4(Address(s)).None? && TransitionIpv4(Address(s)).None? { JudgedIff(Address(s)); }
  }

  // ---- Beyond the NAT64 prefix ----

  lemma Nat64Numbers()
    ensures IsGroup("64") && ParseNumber("64", 16) == 0x64
    ensures IsGroup("1") && ParseNumber("1", 16) == 1
  {
    assert "64"[..1] == "6";
  }

  lemma Nat64Number()
    ensures IsGroup("ff9b") && ParseNumber("ff9b", 16) == 0xFF9B
  {
    assert "ff9b"[..3] == "ff9" && "ff9"[..2] == "ff" && "ff"[..1] == "f";
    assert ParseNumber("ff", 16) == 0xFF;
    assert ParseNumber("ff9", 16) == 0xFF9;
  }

  lemma GroupBytesSnoc(gs: seq<string>, g: string)
    ensures GroupBytes(gs + [g])
            == GroupBytes(gs) + [ParseNumber(g, 16) / 256 % 256, ParseNumber(g, 16) % 256]
  {
    assert (gs + [g])[..|gs|] == gs;
  }

  lemma Nat64Groups()
    ensures AllGroups(["64", "ff9b", "1"])
    ensures GroupBytes(["64", "ff9b", "1"]) == NAT64 + [0, 1]
  {
    Nat64Numbers();
    Nat64Number();
    hide ParseNumber, IsGroup;
    GroupBytesSnoc([], "64");
    GroupBytesSnoc(["64"], "ff9b");
    GroupBytesSnoc(["64", "ff9b"], "1");
    assert [] + ["64"] == ["64"] && ["64"] + ["ff9b"] == ["64", "ff9b"];
    assert ["64", "ff9b"] + ["1"] == ["64", "ff9b", "1"];
    assert GroupBytes([]) == [];
    hide GroupBytes;
  }

  const BEYOND := Spelling(["64", "ff9b", "1"], true, [], Some([10, 0, 0, 1]), None)

  lemma BeyondAddress()
    ensures Legal(BEYOND)
    ensures var b := Address(BEYOND);
            && b[..4] == NAT64 && b[12..] == [10, 0, 0, 1]
            && b[..12] != NAT64 + ZeroBytes(8)
  {
    Nat64Groups();
    assert GroupBytes([]) == [];
    hide GroupBytes, IsGroup;
    var b := Address(BEYOND);
    assert b == NAT64 + [0, 1] + ZeroBytes(6) + [] + [10, 0, 0, 1];
    assert b[..12][5] == 1 && (NAT64 + ZeroBytes(8))[5] == 0;
  }

  /** So the test is wider than the 96-bit prefix of section 2.1 of RFC 6052: `64:ff9b:1::10.0.0.1` lies
      outside that prefix and is refused for 10.0.0.1. */
  lemma Nat64BeyondThePrefix()
    ensures Legal(BEYOND) && Render(BEYOND) == "64:ff9b:1::10.0.0.1"
    ensures Address(BEYOND)[..12] != NAT64 + ZeroBytes(8)
    ensures ClassifyLiteral(Render(BEYOND)).Some?
  {
    hide Render, ClassifyLiteral, Address, Legal, InARange;
    BeyondAddress();
    RenderedNat64();
    Nat64RefusedIff(BEYOND);
    JudgedIffInARange([10, 0, 0, 1]);
  }

  lemma BeyondFront()
    ensures Front(BEYOND.head, true, []) == "64:ff9b:1::"
  {
    assert Join(["1"], ':') == "1";
    assert Join(["ff9b", "1"], ':') == "ff9b:1";
    assert Join(["64", "ff9b", "1"], ':') == "64:ff9b:1";
  }

  lemma BeyondOctets()
    ensures NumberText(0, 10) == "0" && NumberText(1, 10) == "1" && NumberText(10, 10) == "10"
  {
  }

  lemma BeyondQuad()
    ensures QuadText([10, 0, 0, 1]) == "10.0.0.1"
  {
    BeyondOctets();
    hide NumberText;
    assert Octets([10, 0, 0, 1]) == ["10", "0", "0", "1"];
    hide Octets;
    assert Join(["1"], '.') == "1";
    assert Join(["0", "1"], '.') == "0.1";
    assert Join(["0", "0", "1"], '.') == "0.0.1";
  }

  lemma RenderedNat64()
    requires Legal(BEYOND)
    ensures Render(BEYOND) == "64:ff9b:1::10.0.0.1"
  {
    BeyondFront();
    BeyondQuad();
    hide Legal, Front, QuadText;
  }
}

/** Nothing but a spelling of an address is taken for one
    (apps/control-api/src/endpoints/endpoint-url.ts:52-100). */
module Ipv6Sound {
  import opened Domain
  import opened Ipv6
  import opened Ipv6Proofs

  lemma {:induction false} JoinOfSplit(s: string, c: char)
    ensures Join(Split(s, c), c) == s
  {
    if s != "" {
      JoinOfSplit(s[1..], c);
      var rest := Split(s[1..], c);
      assert s == [s[0]] + s[1..];
      if s[0] == c {
        assert ([""] + rest)[1..] == rest;
      } else {
        assert ([[s[0]] + rest[0]] + rest[1..])[1..] == rest[1..];
        if |rest| > 1 { Regroup3([s[0]], rest[0], [c], Join(rest[1..], c)); }
      }
    }
  }

  lemma TextOfDigit(c: char)
    requires 0 <= Digit(c) < 10
    ensures DIGITS[Digit(c)] == c
  {
  }

  /** Decimal text without a leading zero is the text of its number. */
  lemma {:induction false} TextOfNumber(s: string)
    requires |s| >= 1 && Digits(s, 10) && (|s| == 1 || s[0] != '0')
    ensures ParseNumber(s, 10) >= 0 && NumberText(ParseNumber(s, 10), 10) == s
    ensures s[0] != '0' ==> ParseNumber(s, 10) >= 1
  {
    hide ParseNumber, NumberText, Digit;
    var n := |s| - 1;
    assert s == s[..n] + [s[n]];
    if n == 0 {
      assert s == [s[0]];
      TextOfOne(s[0]);
    } else {
      TextOfNumber(s[..n]);
      TextOfDigit(s[n]);
      ParseLast(s[..n], s[n], 10);
      TextOneMore(ParseNumber(s[..n], 10), Digit(s[n]));
    }
  }

  lemma TextOfOne(c: char)
    requires 0 <= Digit(c) < 10
    ensures ParseNumber([c], 10) >= 0 && NumberText(ParseNumber([c], 10), 10) == [c]
    ensures c != '0' ==> ParseNumber([c], 10) >= 1
  {
    TextOfDigit(c);
    ParseLast("", c, 10);
    assert "" + [c] == [c];
    assert ParseNumber("", 10) == 0;
  }

  lemma TextOneMore(p: nat, d: nat)
    requires p >= 1 && d < 10
    ensures NumberText(p * 10 + d, 10) == NumberText(p, 10) + [DIGITS[d]]
  {
    var n := p * 10 + d;
    assert n >= 10 && n / 10 == p && n % 10 == d;
    assert NumberText(n, 10) == NumberText(n / 10, 10) + [DIGITS[n % 10]];
  }

  lemma ParsedQuad(text: string)
    requires Ipv4Bytes(text).Some?
    ensures var parts, q := Split(text, '.'), Ipv4Bytes(text).value;
            |parts| == 4 && forall i | 0 <= i < 4 :: IsOctet(parts[i]) && ParseNumber(parts[i], 10) == q[i]
  {
    hide Split, ParseNumber, IsOctet;
  }

  lemma OctetIsCanonical(s: string)
    requires IsOctet(s)
    ensures ParseNumber(s, 10) >= 0 && NumberText(ParseNumber(s, 10), 10) == s
  {
    hide ParseNumber, NumberText, Digits;
    TextOfNumber(s);
  }

  /** A text is an IPv4 address exactly when it is the dotted quad of one, without leading zeros. */
  lemma QuadIsCanonical(text: string, q: seq<int>)
    ensures Ipv4Bytes(text) == Some(q) <==> IsQuad(q) && text == QuadText(q)
  {
    hide Split, Join, ParseNumber, NumberText, IsOctet, Octets;
    if IsQuad(q) { QuadRoundTrip(q); }
    if Ipv4Bytes(text) == Some(q) {
      ParsedQuad(text);
      hide Ipv4Bytes;
      var parts := Split(text, '.');
      JoinOfSplit(text, '.');
      forall i | 0 <= i < 4 ensures Octets(q)[i] == parts[i] { OctetIsCanonical(parts[i]); }
      assert Octets(q) == parts;
    }
  }

  function JoinPairs(parts: seq<string>): string
    requires |parts| >= 1
  {
    if |parts| == 1 then parts[0] else parts[0] + "::" + JoinPairs(parts[1..])
  }

  lemma JoinPairsCons(x: char, rest: seq<string>)
    requires |rest| >= 1
    ensures JoinPairs([[x] + rest[0]] + rest[1..]) == [x] + JoinPairs(rest)
  {
    var parts := [[x] + rest[0]] + rest[1..];
    if |rest| > 1 {
      assert parts[1..] == rest[1..];
      Regroup3([x], rest[0], "::", JoinPairs(rest[1..]));
    }
  }

  lemma Regroup3(a: string, b: string, c: string, d: string)
    ensures a + b + c + d == a + (b + c + d)
  {
  }

  lemma {:induction false} JoinOfPairs(s: string)
    ensures JoinPairs(SplitPairs(s)) == s
  {
    if s != "" {
      if |s| >= 2 && s[0] == ':' && s[1] == ':' {
        JoinOfPairs(s[2..]);
        assert ([""] + SplitPairs(s[2..]))[1..] == SplitPairs(s[2..]);
        assert s == "" + "::" + s[2..];
      } else {
        JoinOfPairs(s[1..]);
        var rest := SplitPairs(s[1..]);
        assert SplitPairs(s) == [[s[0]] + rest[0]] + rest[1..];
        hide JoinPairs, SplitPairs;
        JoinPairsCons(s[0], rest);
        assert s == [s[0]] + s[1..];
      }
    }
  }

  /** One to four hexadecimal digits each. */
  predicate Hextets(gs: seq<string>) { forall i | 0 <= i < |gs| :: 1 <= |gs[i]| <= 4 && Digits(gs[i], 16) }

  /** Groups on both sides of a `::`, or eight groups and none. */
  predicate Grouped(head: seq<string>, gap: bool, tail: seq<string>) {
    && Hextets(head) && Hextets(tail)
    && (if gap then |head| + |tail| <= 8 else |head| == 8 && tail == [])
  }

  lemma JoinOfGroups(half: string)
    ensures Join(GroupsOf(half), ':') == half
  {
    hide Join, Split;
    if half != "" { JoinOfSplit(half, ':'); } else { assert Join([], ':') == "" by { JoinOfNothing(); } }
  }

  lemma JoinOfNothing()
    ensures Join([], ':') == ""
  {
  }

  lemma FilledParts(head: seq<string>, tail: seq<string>)
    requires |head| + |tail| <= 8 && AllGroups(Filled(head, tail))
    ensures Hextets(head) && Hextets(tail)
  {
    hide Digits;
    var gs := Filled(head, tail);
    forall i | 0 <= i < |head| ensures IsGroup(head[i]) { assert gs[i] == head[i]; }
    forall i | 0 <= i < |tail| ensures IsGroup(tail[i]) { assert gs[8 - |tail| + i] == tail[i]; }
  }

  lemma FrontOfHalves(halves: seq<string>)
    requires 1 <= |halves| <= 2
    ensures JoinPairs(halves)
            == Front(GroupsOf(halves[0]), |halves| == 2, if |halves| == 2 then GroupsOf(halves[1]) else [])
  {
    hide GroupsOf, Join;
    JoinOfGroups(halves[0]);
    if |halves| == 2 {
      JoinOfGroups(halves[1]);
      assert halves[1..] == [halves[1]];
    }
  }

  lemma ExpandedIsSpelled(text: string) returns (head: seq<string>, gap: bool, tail: seq<string>)
    requires Expand(text).Some? && AllGroups(Expand(text).value)
    ensures Grouped(head, gap, tail) && text == Front(head, gap, tail) && Expand(text).value == Filled(head, tail)
  {
    var halves := SplitPairs(text);
    JoinOfPairs(text);
    hide SplitPairs, GroupsOf, AllGroups, JoinPairs, Front, Filled, Hextets;
    FrontOfHalves(halves);
    head, gap := GroupsOf(halves[0]), |halves| == 2;
    tail := if gap then GroupsOf(halves[1]) else [];
    FilledParts(head, tail);
  }

  /** A literal without dots that parses is one to four hexadecimal digits a group, eight groups in all with
      those a single `::` stands for, and gives those groups' bytes. */
  lemma ParsedIsSpelled(literal: string)
    requires Find(literal, '%') == |literal| && Find(literal, '.') == |literal| && Ipv6Bytes(literal).Some?
    ensures exists head, gap, tail ::
              Grouped(head, gap, tail) && literal == Front(head, gap, tail)
              && Ipv6Bytes(literal).value == GroupBytes(Filled(head, tail))
  {
    hide Expand, GroupBytes, Grouped, Front, Filled, AllGroups, Find;
    assert literal[..|literal|] == literal;
    var head, gap, tail := ExpandedIsSpelled(literal);
  }
}

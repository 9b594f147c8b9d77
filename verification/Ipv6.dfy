/** Taking an IPv6 literal apart (apps/control-api/src/endpoints/endpoint-url.ts:52-100), against the
    spellings of section 2.2 of RFC 4291. */
module Ipv6 {
  import opened Domain

  // ---- Strings ----

  /** Where `c` first occurs, or the length. */
  function Find(s: string, c: char): (i: nat)
    ensures i <= |s| && (forall j | 0 <= j < i :: s[j] != c) && (i < |s| ==> s[i] == c)
  {
    if s == "" || s[0] == c then 0 else 1 + Find(s[1..], c)
  }

  /** One past where `c` last occurs, or 0. */
  function PastLast(s: string, c: char): (i: nat)
    ensures i <= |s| && (forall j | i <= j < |s| :: s[j] != c) && (i > 0 ==> s[i - 1] == c)
  {
    if s == "" then 0 else if s[|s| - 1] == c then |s| else PastLast(s[..|s| - 1], c)
  }

  function Split(s: string, c: char): (parts: seq<string>)
    ensures |parts| >= 1
  {
    if s == "" then [""]
    else
      var rest := Split(s[1..], c);
      if s[0] == c then [""] + rest else [[s[0]] + rest[0]] + rest[1..]
  }

  /** Splitting at each `::`. */
  function SplitPairs(s: string): (parts: seq<string>)
    ensures |parts| >= 1
  {
    if s == "" then [""]
    else if |s| >= 2 && s[0] == ':' && s[1] == ':' then [""] + SplitPairs(s[2..])
    else
      var rest := SplitPairs(s[1..]);
      [[s[0]] + rest[0]] + rest[1..]
  }

  function Join(parts: seq<string>, c: char): (s: string) {
    if parts == [] then "" else if |parts| == 1 then parts[0] else parts[0] + [c] + Join(parts[1..], c)
  }

  predicate Free(s: string, c: char) { forall i | 0 <= i < |s| :: s[i] != c }

  lemma {:induction false} SplitFree(s: string, c: char)
    requires Free(s, c)
    ensures Split(s, c) == [s]
  {
    if s != "" {
      SplitFree(s[1..], c);
      assert [s[0]] + s[1..] == s;
    }
  }

  lemma {:induction false} SplitFirst(a: string, b: string, c: char)
    requires Free(a, c)
    ensures Split(a + [c] + b, c) == [a] + Split(b, c)
  {
    var s := a + [c] + b;
    if a == "" {
      assert s[1..] == b;
    } else {
      assert s[1..] == a[1..] + [c] + b;
      SplitFirst(a[1..], b, c);
      assert [a[0]] + a[1..] == a;
    }
  }

  lemma {:induction false} SplitJoin(parts: seq<string>, c: char)
    requires parts != [] && forall i | 0 <= i < |parts| :: Free(parts[i], c)
    ensures Split(Join(parts, c), c) == parts
  {
    if |parts| == 1 {
      SplitFree(parts[0], c);
    } else {
      SplitJoin(parts[1..], c);
      SplitFirst(parts[0], Join(parts[1..], c), c);
    }
  }

  // ---- Numbers ----

  function Digit(c: char): (v: int)
    ensures -1 <= v < 16
  {
    if '0' <= c <= '9' then c as int - '0' as int
    else if 'a' <= c <= 'f' then c as int - 'a' as int + 10
    else if 'A' <= c <= 'F' then c as int - 'A' as int + 10
    else -1
  }

  predicate Digits(s: string, base: int) { forall i | 0 <= i < |s| :: 0 <= Digit(s[i]) < base }

  function ParseNumber(s: string, base: int): (n: int)
    requires base > 0
  {
    if s == "" then 0 else ParseNumber(s[..|s| - 1], base) * base + Digit(s[|s| - 1])
  }

  lemma {:induction false} ParseIsNat(s: string, base: int)
    requires base > 0 && Digits(s, base)
    ensures ParseNumber(s, base) >= 0
  {
    if s != "" { ParseIsNat(s[..|s| - 1], base); }
  }

  const DIGITS := "0123456789abcdef"

  /** `toString(base)`: lower case, no leading zeros. */
  function NumberText(n: nat, base: int): (s: string)
    requires 2 <= base <= 16
    decreases n
  {
    if n < base then [DIGITS[n]]
    else
      Shrinks(n, base);
      NumberText(n / base, base) + [DIGITS[n % base]]
  }

  lemma Shrinks(n: nat, base: int)
    requires 2 <= base <= n
    ensures 0 <= n / base < n
  {
    var q := n / base;
    assert n == q * base + n % base;
    if q >= n { Doubles(q, base); }
  }

  lemma Doubles(q: int, base: int)
    requires q > 0 && base >= 2
    ensures q * base >= 2 * q
  {
  }

  lemma DigitOfText(d: int)
    requires 0 <= d < 16
    ensures Digit(DIGITS[d]) == d
  {
  }

  lemma DivMod(n: int, base: int)
    requires base > 0
    ensures n / base * base + n % base == n && 0 <= n % base < base
  {
  }

  lemma ParseLast(s: string, c: char, base: int)
    requires base > 0
    ensures ParseNumber(s + [c], base) == ParseNumber(s, base) * base + Digit(c)
  {
    assert (s + [c])[..|s|] == s;
  }

  lemma {:induction false} NumberIsDigits(n: nat, base: int)
    requires 2 <= base <= 16
    ensures Digits(NumberText(n, base), base) && |NumberText(n, base)| >= 1
    decreases n
  {
    if n < base {
      DigitOfText(n);
    } else {
      Shrinks(n, base);
      NumberIsDigits(n / base, base);
      DivMod(n, base);
      DigitOfText(n % base);
      var s := NumberText(n / base, base);
      assert NumberText(n, base) == s + [DIGITS[n % base]];
      hide NumberText, Digit;
    }
  }

  lemma {:induction false} NumberRoundTrip(n: nat, base: int)
    requires 2 <= base <= 16
    ensures ParseNumber(NumberText(n, base), base) == n
    decreases n
  {
    if n < base {
      DigitOfText(n);
      ParseLast("", DIGITS[n], base);
      assert "" + [DIGITS[n]] == [DIGITS[n]];
    } else {
      Shrinks(n, base);
      NumberRoundTrip(n / base, base);
      DivMod(n, base);
      DigitOfText(n % base);
      var s := NumberText(n / base, base);
      assert NumberText(n, base) == s + [DIGITS[n % base]];
      ParseLast(s, DIGITS[n % base], base);
      hide NumberText, ParseNumber, Digit;
      var p := ParseNumber(s, base);
      assert p == n / base;
      assert p * base == n / base * base;
    }
  }

  lemma HexIsShort(n: nat)
    requires n < 0x10000
    ensures 1 <= |NumberText(n, 16)| <= 4
  {
    var a, b := n / 16, n / 16 / 16;
    var c := b / 16;
    assert c < 16;
    assert |NumberText(c, 16)| == 1;
    assert |NumberText(b, 16)| <= 2;
    assert |NumberText(a, 16)| <= 3;
  }

  // ---- IPv4 ----

  /** One to three decimal digits, no leading zero, at most 255. */
  predicate IsOctet(s: string) {
    1 <= |s| <= 3 && Digits(s, 10) && (|s| == 1 || s[0] != '0') && ParseNumber(s, 10) <= 255
  }

  predicate AllOctets(parts: seq<string>) { forall i | 0 <= i < |parts| :: IsOctet(parts[i]) }

  predicate IsQuad(q: seq<int>) { |q| == 4 && forall i | 0 <= i < 4 :: 0 <= q[i] < 256 }

  function Ipv4Bytes(text: string): (r: Option<seq<int>>)
    ensures r.Some? ==> IsQuad(r.value)
  {
    var parts := Split(text, '.');
    if |parts| == 4 && AllOctets(parts) then
      ParseIsNat(parts[0], 10); ParseIsNat(parts[1], 10); ParseIsNat(parts[2], 10); ParseIsNat(parts[3], 10);
      Some([ParseNumber(parts[0], 10), ParseNumber(parts[1], 10), ParseNumber(parts[2], 10), ParseNumber(parts[3], 10)])
    else None
  }

  // ---- IPv6 ----

  /** One to four hexadecimal digits. */
  predicate IsGroup(g: string) { 1 <= |g| <= 4 && Digits(g, 16) }

  predicate AllGroups(gs: seq<string>) { forall i | 0 <= i < |gs| :: IsGroup(gs[i]) }

  /** The dotted-quad tail, where there is one, turned into the two groups it encodes. */
  function QuadToGroups(text: string): (r: Option<string>) {
    if Find(text, '.') == |text| then Some(text)
    else
      var colon := PastLast(text, ':');
      if colon == 0 then None
      else
        var e := Ipv4Bytes(text[colon..]);
        if e.None? then None
        else Some(text[..colon] + NumberText(Pair(e.value[0], e.value[1]), 16) + ":"
          + NumberText(Pair(e.value[2], e.value[3]), 16))
  }

  /** `(high << 8) | low` of two octets. */
  function Pair(high: int, low: int): nat {
    if 0 <= high < 256 && 0 <= low < 256 then high * 256 + low else 0
  }

  function Zeros(n: nat): seq<string> { seq(n, i => "0") }

  /** The eight groups of a text without a dotted quad. */
  function Expand(text: string): (r: Option<seq<string>>)
    ensures r.Some? ==> |r.value| == 8
  {
    FromHalves(SplitPairs(text))
  }

  /** The groups of one side of the `::`. */
  function GroupsOf(half: string): seq<string> {
    if half != "" then Split(half, ':') else []
  }

  /** Eight groups, with zeros between the two sides. */
  function Filled(head: seq<string>, tail: seq<string>): (gs: seq<string>)
    requires |head| + |tail| <= 8
    ensures |gs| == 8
  {
    head + Zeros(8 - |head| - |tail|) + tail
  }

  function FromHalves(halves: seq<string>): (r: Option<seq<string>>)
    requires |halves| >= 1
    ensures r.Some? ==> |r.value| == 8
  {
    if |halves| > 2 then None
    else
      var head := GroupsOf(halves[0]);
      var tail := if |halves| == 2 then GroupsOf(halves[1]) else [];
      if |halves| == 1 && |head| != 8 then None
      else if |head| + |tail| > 8 then None
      else Some(Filled(head, tail))
  }

  /** Each group as its high and low byte. */
  function GroupBytes(gs: seq<string>): (bytes: seq<int>)
    ensures |bytes| == 2 * |gs|
  {
    if gs == [] then []
    else
      var v := ParseNumber(gs[|gs| - 1], 16);
      GroupBytes(gs[..|gs| - 1]) + [v / 256 % 256, v % 256]
  }

  function Ipv6Bytes(literal: string): (r: Option<seq<int>>) {
    var text := QuadToGroups(literal[..Find(literal, '%')]);
    if text.None? then None
    else
      var groups := Expand(text.value);
      if groups.Some? && AllGroups(groups.value) then Some(GroupBytes(groups.value)) else None
  }

  method ToBytes(groups: seq<string>) returns (r: Option<seq<int>>)
    ensures r == if AllGroups(groups) then Some(GroupBytes(groups)) else None
  {
    var bytes: seq<int> := [];
    for i := 0 to |groups|
      invariant AllGroups(groups[..i]) && bytes == GroupBytes(groups[..i])
    {
      var group := groups[i];
      assert groups[..i + 1][..i] == groups[..i];
      if !IsGroup(group) { return None; }
      var value := ParseNumber(group, 16);
      bytes := bytes + [value / 256 % 256, value % 256];
    }
    assert groups[..|groups|] == groups;
    r := Some(bytes);
  }

  /** `ipv6Bytes`, past the shape check of `isIP`. */
  method ParseIpv6(literal: string) returns (r: Option<seq<int>>)
    ensures r == Ipv6Bytes(literal)
  {
    var text := literal[..Find(literal, '%')];
    var rewritten := QuadToGroups(text);
    if rewritten.None? { return None; }
    var groups := Expand(rewritten.value);
    if groups.None? { return None; }
    r := ToBytes(groups.value);
  }
}

/** Every legal spelling of an address is taken apart into that address's bytes. */
module Ipv6Proofs {
  import opened Domain
  import opened Ipv6

  /** A spelling: groups, at most one `::` between `head` and `tail`, a dotted quad at the end, a zone. */
  datatype Spelling = Spelling(
    head: seq<string>, gap: bool, tail: seq<string>, quad: Option<seq<int>>, zone: Option<string>)

  /** The `::` stands for at least one group of zeros. */
  predicate Legal(s: Spelling) {
    var n := |s.head| + |s.tail| + if s.quad.Some? then 2 else 0;
    && AllGroups(s.head) && AllGroups(s.tail)
    && (s.quad.Some? ==> IsQuad(s.quad.value))
    && (if s.gap then n <= 7 else n == 8 && s.tail == [])
  }

  function Front(head: seq<string>, gap: bool, tail: seq<string>): string {
    Join(head, ':') + if gap then "::" + Join(tail, ':') else ""
  }

  function QuadText(q: seq<int>): string
    requires IsQuad(q)
  {
    Join(Octets(q), '.')
  }

  function Octets(q: seq<int>): (r: seq<string>)
    requires IsQuad(q)
    ensures |r| == 4 && forall i | 0 <= i < 4 :: r[i] == NumberText(q[i], 10)
  {
    [NumberText(q[0], 10), NumberText(q[1], 10), NumberText(q[2], 10), NumberText(q[3], 10)]
  }

  /** What stands before the dotted quad. */
  function Lead(s: Spelling): string {
    Front(s.head, s.gap, s.tail) + if s.gap && s.tail == [] then "" else ":"
  }

  function Render(s: Spelling): string
    requires Legal(s)
  {
    Body(s) + if s.zone.Some? then "%" + s.zone.value else ""
  }

  function Body(s: Spelling): string
    requires Legal(s)
  {
    if s.quad.Some? then Lead(s) + QuadText(s.quad.value) else Front(s.head, s.gap, s.tail)
  }

  function ZeroBytes(n: nat): (r: seq<int>)
    ensures |r| == n
  {
    seq(n, i => 0)
  }

  /** Groups on either side of the zeros that fill up to sixteen bytes. */
  function Padded(head: seq<string>, tail: seq<string>): (bytes: seq<int>)
    requires |head| + |tail| <= 8
  {
    GroupBytes(head) + ZeroBytes(16 - 2 * |head| - 2 * |tail|) + GroupBytes(tail)
  }

  /** The sixteen bytes a spelling names. */
  function Address(s: Spelling): (bytes: seq<int>)
    requires Legal(s)
    ensures |bytes| == 16
  {
    var quad := if s.quad.Some? then s.quad.value else [];
    GroupBytes(s.head) + ZeroBytes(16 - 2 * |s.head| - 2 * |s.tail| - |quad|) + GroupBytes(s.tail) + quad
  }

  // ---- Joined groups ----

  predicate PairAt(s: string, i: int)
    requires 0 <= i < |s| - 1
  {
    s[i] == ':' && s[i + 1] == ':'
  }

  predicate NoPair(s: string) { forall i | 0 <= i < |s| - 1 :: !PairAt(s, i) }

  lemma NoPairTail(s: string)
    requires s != "" && NoPair(s)
    ensures NoPair(s[1..])
  {
    forall i | 0 <= i < |s[1..]| - 1 ensures !PairAt(s[1..], i) { assert !PairAt(s, i + 1); }
  }

  /** Hexadecimal digits, colons and dots. */
  predicate Plain(s: string) { forall i | 0 <= i < |s| :: s[i] == ':' || s[i] == '.' || Digit(s[i]) >= 0 }

  predicate Tight(s: string) { s != "" ==> s[0] != ':' && s[|s| - 1] != ':' }

  lemma DigitsArePlain(g: string, base: int)
    requires Digits(g, base)
    ensures Plain(g) && Free(g, ':') && Free(g, '.') && Free(g, '%') && Free(g, '/')
  {
    assert Digit(':') == -1 && Digit('.') == -1 && Digit('%') == -1 && Digit('/') == -1;
  }

  lemma AppendPlain(a: string, b: string, c: char)
    requires Plain(a) && Plain(b) && (c == ':' || c == '.')
    ensures Plain(a + [c] + b)
  {
  }

  lemma {:induction false} JoinShape(gs: seq<string>)
    requires AllGroups(gs)
    ensures var s := Join(gs, ':'); NoPair(s) && Tight(s) && Plain(s) && Free(s, '.') && (s == "" <==> gs == [])
  {
    if gs != [] {
      assert IsGroup(gs[0]);
      DigitsArePlain(gs[0], 16);
      if |gs| == 1 {
        assert forall i | 0 <= i < |gs[0]| - 1 :: !PairAt(gs[0], i);
      } else {
        JoinShape(gs[1..]);
        AppendPlain(gs[0], Join(gs[1..], ':'), ':');
        var rest := Join(gs[1..], ':');
        var s := Join(gs, ':');
        assert s == gs[0] + [':'] + rest;
        hide Join, Plain, AllGroups;
        forall i | 0 <= i < |s| - 1 ensures !PairAt(s, i) {
          if i > |gs[0]| { assert !PairAt(rest, i - |gs[0]| - 1); }
        }
      }
    }
  }

  lemma {:induction false} JoinAppend(parts: seq<string>, x: string, c: char)
    requires parts != []
    ensures Join(parts + [x], c) == Join(parts, c) + [c] + x
  {
    if |parts| == 1 {
      assert (parts + [x])[1..] == [x];
    } else {
      assert (parts + [x])[1..] == parts[1..] + [x];
      JoinAppend(parts[1..], x, c);
      assert parts[0] + [c] + (Join(parts[1..], c) + [c] + x) == (parts[0] + [c] + Join(parts[1..], c)) + [c] + x;
    }
  }

  lemma {:induction false} SplitNoPair(s: string)
    requires NoPair(s)
    ensures SplitPairs(s) == [s]
  {
    if s != "" {
      NoPairTail(s);
      SplitNoPair(s[1..]);
      assert |s| >= 2 ==> !PairAt(s, 0);
      assert [s[0]] + s[1..] == s;
    }
  }

  lemma {:induction false} SplitAtPair(a: string, b: string)
    requires NoPair(a) && (a != "" ==> a[|a| - 1] != ':')
    ensures SplitPairs(a + "::" + b) == [a] + SplitPairs(b)
  {
    var s := a + "::" + b;
    if a == "" {
      assert s[2..] == b;
    } else {
      assert s[1..] == a[1..] + "::" + b;
      NoPairTail(a);
      assert |a| >= 2 ==> !PairAt(a, 0);
      SplitAtPair(a[1..], b);
      assert [a[0]] + a[1..] == a;
    }
  }

  lemma GroupsSplit(gs: seq<string>)
    requires AllGroups(gs) && gs != []
    ensures Split(Join(gs, ':'), ':') == gs
  {
    forall i | 0 <= i < |gs| ensures Free(gs[i], ':') { assert IsGroup(gs[i]); DigitsArePlain(gs[i], 16); }
    SplitJoin(gs, ':');
  }

  /** What a half of the text is split into. */
  lemma HalfSplits(gs: seq<string>)
    requires AllGroups(gs)
    ensures GroupsOf(Join(gs, ':')) == gs
  {
    JoinShape(gs);
    if gs != [] { GroupsSplit(gs); }
  }

  /** Expanding puts back every group, with the zeros the `::` stood for. */
  lemma ExpandFront(head: seq<string>, gap: bool, tail: seq<string>)
    requires AllGroups(head) && AllGroups(tail)
    requires if gap then |head| + |tail| <= 8 else |head| == 8 && tail == []
    ensures Expand(Front(head, gap, tail)) == Some(Filled(head, tail))
  {
    JoinShape(head);
    JoinShape(tail);
    var a, b := Join(head, ':'), Join(tail, ':');
    if gap {
      SplitNoPair(b);
      SplitAtPair(a, b);
      assert Front(head, gap, tail) == a + "::" + b;
    } else {
      SplitNoPair(a);
      assert Front(head, gap, tail) == a;
    }
    var halves := SplitPairs(Front(head, gap, tail));
    assert halves == if gap then [a, b] else [a];
    Rejoined(head, gap, tail);
  }

  lemma Rejoined(head: seq<string>, gap: bool, tail: seq<string>)
    requires AllGroups(head) && AllGroups(tail)
    requires if gap then |head| + |tail| <= 8 else |head| == 8 && tail == []
    ensures FromHalves(if gap then [Join(head, ':'), Join(tail, ':')] else [Join(head, ':')])
            == Some(Filled(head, tail))
  {
    HalfSplits(head);
    if gap { HalfSplits(tail); }
    hide Join, GroupsOf, AllGroups, Filled;
  }

  // ---- Bytes ----

  lemma {:induction false} GroupBytesConcat(a: seq<string>, b: seq<string>)
    ensures GroupBytes(a + b) == GroupBytes(a) + GroupBytes(b)
  {
    if b == [] {
      assert a + b == a;
    } else {
      var n := |b| - 1;
      assert (a + b)[..|a + b| - 1] == a + b[..n];
      GroupBytesConcat(a, b[..n]);
    }
  }

  lemma {:induction false} GroupBytesOfZeros(n: nat)
    ensures GroupBytes(Zeros(n)) == ZeroBytes(2 * n) && AllGroups(Zeros(n))
  {
    if n > 0 {
      GroupBytesOfZeros(n - 1);
      assert Zeros(n)[..n - 1] == Zeros(n - 1);
      assert "0"[..0] == "";
    }
  }

  // ---- The dotted quad ----

  /** The two groups a dotted quad is rewritten to. */
  function QuadGroups(q: seq<int>): seq<string>
    requires |q| == 4
  {
    [NumberText(Pair(q[0], q[1]), 16), NumberText(Pair(q[2], q[3]), 16)]
  }

  lemma TwoGroups(x: string, y: string)
    ensures var h, l := ParseNumber(x, 16), ParseNumber(y, 16);
            GroupBytes([x, y]) == [h / 256 % 256, h % 256, l / 256 % 256, l % 256]
  {
    hide ParseNumber;
    assert [x, y][..1] == [x] && [x][..0] == [];
    assert GroupBytes([x]) == [ParseNumber(x, 16) / 256 % 256, ParseNumber(x, 16) % 256];
  }

  lemma PairBytes(a: int, b: int)
    requires 0 <= a < 256 && 0 <= b < 256
    ensures Pair(a, b) < 0x10000 && Pair(a, b) / 256 % 256 == a && Pair(a, b) % 256 == b
  {
  }

  lemma QuadGroupsAreGroups(q: seq<int>)
    requires IsQuad(q)
    ensures AllGroups(QuadGroups(q)) && GroupBytes(QuadGroups(q)) == q
  {
    var h, l := Pair(q[0], q[1]), Pair(q[2], q[3]);
    PairBytes(q[0], q[1]);
    PairBytes(q[2], q[3]);
    HexIsShort(h); NumberRoundTrip(h, 16); NumberIsDigits(h, 16);
    HexIsShort(l); NumberRoundTrip(l, 16); NumberIsDigits(l, 16);
    hide NumberText, ParseNumber, Pair;
    TwoGroups(NumberText(h, 16), NumberText(l, 16));
    hide GroupBytes;
  }

  lemma {:induction false} NoLeadingZero(n: nat)
    requires n > 0
    ensures |NumberText(n, 10)| >= 1 && NumberText(n, 10)[0] != '0'
    decreases n
  {
    if n >= 10 { NoLeadingZero(n / 10); }
  }

  lemma OctetIsShort(n: nat)
    requires n < 256
    ensures |NumberText(n, 10)| <= 3 && (n == 0 ==> |NumberText(n, 10)| == 1)
  {
    var a := n / 10;
    assert |NumberText(a / 10, 10)| == 1;
    assert |NumberText(a, 10)| <= 2;
  }

  lemma OctetText(n: int)
    requires 0 <= n < 256
    ensures IsOctet(NumberText(n, 10)) && ParseNumber(NumberText(n, 10), 10) == n
  {
    NumberRoundTrip(n, 10);
    NumberIsDigits(n, 10);
    OctetIsShort(n);
    if n > 0 { NoLeadingZero(n); }
    hide NumberText, ParseNumber, Digits;
  }

  lemma QuadRoundTrip(q: seq<int>)
    requires IsQuad(q)
    ensures Ipv4Bytes(QuadText(q)) == Some(q)
    ensures Plain(QuadText(q)) && Free(QuadText(q), ':') && !Free(QuadText(q), '.')
  {
    var parts := Octets(q);
    hide Octets, NumberText, ParseNumber, Join, Split;
    forall i | 0 <= i < 4
      ensures IsOctet(parts[i]) && ParseNumber(parts[i], 10) == q[i] && Free(parts[i], '.') && Plain(parts[i])
              && Free(parts[i], ':')
    {
      OctetText(q[i]);
      DigitsArePlain(parts[i], 10);
    }
    hide IsOctet, Free, Plain;
    SplitJoin(parts, '.');
    DottedShape(parts);
    assert [q[0], q[1], q[2], q[3]] == q;
  }

  lemma {:induction false} DottedShape(parts: seq<string>)
    requires forall i | 0 <= i < |parts| :: Plain(parts[i]) && Free(parts[i], ':')
    ensures Plain(Join(parts, '.')) && Free(Join(parts, '.'), ':') && (|parts| > 1 ==> !Free(Join(parts, '.'), '.'))
  {
    if |parts| > 1 {
      DottedShape(parts[1..]);
      assert Join(parts, '.') == parts[0] + ['.'] + Join(parts[1..], '.');
      assert Join(parts, '.')[|parts[0]|] == '.';
    }
  }

  /** The spelling with its dotted quad written as groups. */
  function Unquoted(s: Spelling): (r: Spelling)
    requires Legal(s) && s.quad.Some?
  {
    var more := QuadGroups(s.quad.value);
    if s.gap then s.(tail := s.tail + more, quad := None) else s.(head := s.head + more, quad := None)
  }

  /** Leading groups, their separator and two more groups are the longer list, joined. */
  lemma LeadJoins(gs: seq<string>, h: string, l: string)
    ensures Join(gs + [h, l], ':') == Join(gs, ':') + (if gs == [] then "" else ":") + h + ":" + l
  {
    if gs == [] {
      assert gs + [h, l] == [h, l] && [h, l][1..] == [l];
    } else {
      assert gs + [h, l] == gs + [h] + [l];
      JoinAppend(gs, h, ':');
      JoinAppend(gs + [h], l, ':');
    }
  }

  lemma LeadIsFront(s: Spelling)
    requires Legal(s) && s.quad.Some?
    ensures var u, more := Unquoted(s), QuadGroups(s.quad.value);
            Front(u.head, u.gap, u.tail) == Lead(s) + more[0] + ":" + more[1]
  {
    var more := QuadGroups(s.quad.value);
    assert more == [more[0], more[1]];
    hide QuadGroups, Join;
    if s.gap {
      LeadAtGap(s, more[0], more[1]);
    } else {
      LeadJoins(s.head, more[0], more[1]);
      assert s.head != [];
      assert Front(s.head, false, s.tail) == Join(s.head, ':');
      assert Front(s.head + more, false, []) == Join(s.head + more, ':');
    }
  }

  lemma LeadAtGap(s: Spelling, h: string, l: string)
    requires s.gap
    ensures Front(s.head, true, s.tail + [h, l]) == Lead(s) + h + ":" + l
  {
    var a, b, sep := Join(s.head, ':'), Join(s.tail, ':'), if s.tail == [] then "" else ":";
    LeadJoins(s.tail, h, l);
    hide Join;
    assert Lead(s) == a + ("::" + b) + sep;
    Regroup(a, "::", b, sep, h);
    Regroup(a, "::", b + sep, h, ":" + l);
    assert b + sep + h + ":" + l == b + sep + h + (":" + l);
    assert Lead(s) + h + ":" + l == a + ("::" + (b + sep)) + h + (":" + l) by {
      assert a + ("::" + (b + sep)) == a + ("::" + b) + sep;
    }
  }

  lemma Regroup(a: string, b: string, c: string, d: string, e: string)
    ensures a + (b + (c + d + e)) == a + (b + c) + d + e
  {
    assert b + (c + d + e) == (b + c) + (d + e);
    assert a + ((b + c) + (d + e)) == a + (b + c) + d + e;
  }

  lemma LeadShape(s: Spelling)
    requires Legal(s)
    ensures Plain(Front(s.head, s.gap, s.tail)) && Free(Front(s.head, s.gap, s.tail), '.')
    ensures Lead(s) != "" && Lead(s)[|Lead(s)| - 1] == ':' && Plain(Lead(s)) && Free(Lead(s), '.')
  {
    JoinShape(s.head);
    JoinShape(s.tail);
    hide Join;
  }

  lemma PastLastOf(a: string, b: string, c: char)
    requires a != "" && a[|a| - 1] == c && Free(b, c)
    ensures PastLast(a + b, c) == |a|
  {
    var i := PastLast(a + b, c);
    assert forall j | |a| <= j < |a + b| :: (a + b)[j] == b[j - |a|];
    assert (a + b)[|a| - 1] == c;
  }

  lemma FindOf(a: string, b: string, c: char)
    requires Free(a, c) && (b == "" || b[0] == c)
    ensures Find(a + b, c) == |a|
  {
    var i := Find(a + b, c);
    assert forall j | 0 <= j < |a| :: (a + b)[j] == a[j];
    assert b != "" ==> (a + b)[|a|] == b[0];
  }

  /** Rewriting the dotted quad gives the text of the spelling without one. */
  lemma QuadRewritten(s: Spelling)
    requires Legal(s) && s.quad.Some?
    ensures var u := Unquoted(s); QuadToGroups(Lead(s) + QuadText(s.quad.value)) == Some(Front(u.head, u.gap, u.tail))
  {
    var q := s.quad.value;
    var a, b := Lead(s), QuadText(q);
    LeadShape(s);
    QuadRoundTrip(q);
    LeadIsFront(s);
    PastLastOf(a, b, ':');
    hide Lead, QuadText, Front, Ipv4Bytes, NumberText;
    assert (a + b)[|a|..] == b && (a + b)[..|a|] == a;
    var i :| 0 <= i < |b| && b[i] == '.';
    assert (a + b)[|a| + i] == '.';
    assert Find(a + b, '.') != |a + b|;
  }

  // ---- The theorem ----

  lemma AddressOfUnquoted(s: Spelling)
    requires Legal(s) && s.quad.Some?
    ensures var u := Unquoted(s);
            && AllGroups(u.head) && AllGroups(u.tail)
            && (if u.gap then |u.head| + |u.tail| <= 8 else |u.head| == 8 && u.tail == [])
            && Padded(u.head, u.tail) == Address(s)
  {
    var q := s.quad.value;
    QuadGroupsAreGroups(q);
    if s.gap { GroupBytesConcat(s.tail, QuadGroups(q)); } else { GroupBytesConcat(s.head, QuadGroups(q)); }
  }

  lemma FrontBytes(head: seq<string>, gap: bool, tail: seq<string>)
    requires AllGroups(head) && AllGroups(tail)
    requires if gap then |head| + |tail| <= 8 else |head| == 8 && tail == []
    ensures var e := Expand(Front(head, gap, tail));
            && e.Some? && AllGroups(e.value)
            && GroupBytes(e.value) == Padded(head, tail)
  {
    ExpandFront(head, gap, tail);
    FilledBytes(head, tail);
    hide Expand, Front, AllGroups, GroupBytes, Padded, Filled;
  }

  lemma FilledBytes(head: seq<string>, tail: seq<string>)
    requires AllGroups(head) && AllGroups(tail) && |head| + |tail| <= 8
    ensures AllGroups(Filled(head, tail)) && GroupBytes(Filled(head, tail)) == Padded(head, tail)
  {
    var z := Zeros(8 - |head| - |tail|);
    GroupBytesOfZeros(8 - |head| - |tail|);
    GroupBytesConcat(head, z);
    GroupBytesConcat(head + z, tail);
    forall i | 0 <= i < 8 ensures IsGroup(Filled(head, tail)[i]) {
      if i < |head| { assert IsGroup(head[i]); }
      else if i < |head| + |z| { assert IsGroup(z[i - |head|]); }
      else { assert IsGroup(tail[i - |head| - |z|]); }
    }
    hide GroupBytes, IsGroup, Zeros;
  }

  lemma PlainIsFree(s: string)
    requires Plain(s)
    ensures Free(s, '%')
  {
    assert Digit('%') == -1;
  }

  lemma ZoneStripped(s: Spelling)
    requires Legal(s)
    ensures Render(s)[..Find(Render(s), '%')] == Body(s)
  {
    var body := Body(s);
    assert Plain(body) by {
      LeadShape(s);
      if s.quad.Some? { QuadRoundTrip(s.quad.value); }
      hide Lead, QuadText, Front;
    }
    PlainIsFree(body);
    hide Body;
    FindOf(body, if s.zone.Some? then "%" + s.zone.value else "", '%');
  }

  ghost predicate Parses(s: Spelling, text: Option<string>)
    requires Legal(s)
  {
    && text.Some? && Expand(text.value).Some?
    && AllGroups(Expand(text.value).value) && GroupBytes(Expand(text.value).value) == Address(s)
  }

  lemma QuadParses(s: Spelling)
    requires Legal(s) && s.quad.Some?
    ensures Parses(s, QuadToGroups(Body(s)))
  {
    QuadRewritten(s);
    AddressOfUnquoted(s);
    var u := Unquoted(s);
    assert Body(s) == Lead(s) + QuadText(s.quad.value);
    hide Unquoted, QuadToGroups, Body, Lead, QuadText, Address, GroupBytes, Expand, Front, AllGroups, Padded;
    FrontBytes(u.head, u.gap, u.tail);
    assert Parses(s, Some(Front(u.head, u.gap, u.tail)));
  }

  lemma PlainParses(s: Spelling)
    requires Legal(s) && s.quad.None?
    ensures Parses(s, QuadToGroups(Body(s)))
  {
    var front := Front(s.head, s.gap, s.tail);
    assert QuadToGroups(front) == Some(front) by {
      LeadShape(s);
      FindOf(front, "", '.');
      assert front + "" == front;
    }
    assert Body(s) == front;
    AddressIsPadded(s);
    hide Front, QuadToGroups, Expand, GroupBytes, Body, AllGroups, Padded, Address;
    FrontBytes(s.head, s.gap, s.tail);
    assert Parses(s, Some(front));
  }

  lemma AddressIsPadded(s: Spelling)
    requires Legal(s) && s.quad.None?
    ensures Address(s) == Padded(s.head, s.tail)
  {
    hide GroupBytes, ZeroBytes, AllGroups;
  }

  /** For every address and every legal spelling of it, `ipv6Bytes` returns its sixteen bytes. */
  lemma EverySpellingParses(s: Spelling)
    requires Legal(s)
    ensures Ipv6Bytes(Render(s)) == Some(Address(s))
  {
    ZoneStripped(s);
    if s.quad.Some? { QuadParses(s); } else { PlainParses(s); }
    hide Render, Body, QuadToGroups, Expand, GroupBytes, Address;
  }
}

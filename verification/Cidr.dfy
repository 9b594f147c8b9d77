/** Membership of an IPv4 address in an allowlisted block, and the ranges refused outright
    (apps/control-api/src/endpoints/endpoint-url.ts:129-149, 252-264). */
module Cidr {
  import opened Domain
  import opened Ipv6

  // ---- Bits of unsigned 32-bit integers ----

  function Pow2(k: nat): (p: nat)
    ensures p >= 1
  {
    if k == 0 then 1 else 2 * Pow2(k - 1)
  }

  const WORD: nat := 0x1_0000_0000

  /** `x & y`, bit by bit. */
  function And(x: nat, y: nat): (r: nat) {
    if x == 0 || y == 0 then 0 else (x % 2) * (y % 2) + 2 * And(x / 2, y / 2)
  }

  /** `x | y`, bit by bit. */
  function Or(x: nat, y: nat): (r: nat) {
    if x == 0 then y else if y == 0 then x
    else (if x % 2 == 1 || y % 2 == 1 then 1 else 0) + 2 * Or(x / 2, y / 2)
  }

  /** `(x << k) >>> 0`. */
  function Shl(x: nat, k: nat): (r: nat) { x * Pow2(k) % WORD }

  function ToInt(b: seq<int>): (n: nat)
    requires IsQuad(b)
  {
    Or(Or(Or(Shl(b[0], 24), Shl(b[1], 16)), Shl(b[2], 8)), b[3])
  }

  function Mask(prefix: int): nat
    requires 0 <= prefix <= 32
  {
    Shl(WORD - 1, 32 - prefix)
  }

  /** `withinCidr`. `prefix` is absent when its text is no whole number. */
  predicate WithinCidr(bytes: seq<int>, network: string, prefix: Option<int>)
    requires |bytes| == 4 ==> IsQuad(bytes)
  {
    if prefix.None? || prefix.value < 0 || prefix.value > 32 then false
    else if prefix.value == 0 then false
    else
      var net := Ipv4Bytes(network);
      if net.None? || |bytes| != 4 then false
      else And(ToInt(bytes), Mask(prefix.value)) == And(ToInt(net.value), Mask(prefix.value))
  }

  // ---- The masked comparison is the interval ----

  lemma {:induction false} OrOfDisjoint(a: nat, k: nat, b: nat)
    requires b < Pow2(k)
    ensures Or(a * Pow2(k), b) == a * Pow2(k) + b
    decreases k
  {
    if k > 0 && a > 0 && b > 0 {
      var p := Pow2(k - 1);
      assert a * Pow2(k) == 2 * (a * p);
      assert a * p > 0;
      assert (2 * (a * p)) / 2 == a * p && (2 * (a * p)) % 2 == 0;
      OrOfDisjoint(a, k - 1, b / 2);
    }
  }

  lemma {:induction false} AndOnes(x: nat, w: nat)
    requires x < Pow2(w)
    ensures And(x, Pow2(w) - 1) == x
    decreases w
  {
    if w > 0 && x > 0 {
      AndOnes(x / 2, w - 1);
      assert (Pow2(w) - 1) / 2 == Pow2(w - 1) - 1 && (Pow2(w) - 1) % 2 == 1;
    }
  }

  /** Masking off the low `k` bits. */
  lemma {:induction false} AndMask(x: nat, w: nat, k: nat)
    requires x < Pow2(w) && k <= w && Pow2(k) <= Pow2(w)
    ensures And(x, Pow2(w) - Pow2(k)) == x / Pow2(k) * Pow2(k)
    decreases k
  {
    if k == 0 {
      AndOnes(x, w);
    } else {
      var p := Pow2(k - 1);
      var m: nat := Pow2(w - 1) - p;
      assert Pow2(w) == 2 * Pow2(w - 1) && Pow2(k) == 2 * p;
      AndMask(x / 2, w - 1, k - 1);
      AndEven(x, m);
      hide And, Pow2;
      Halves(x, p);
    }
  }

  lemma AndEven(x: nat, m: nat)
    ensures And(x, 2 * m) == 2 * And(x / 2, m)
  {
  }

  lemma Halves(x: nat, p: nat)
    requires p >= 1
    ensures x / (2 * p) * (2 * p) == 2 * (x / 2 / p * p)
  {
    var q := x / (2 * p);
    assert x == q * (2 * p) + x % (2 * p);
    assert q * (2 * p) == 2 * (q * p);
    var r := x % (2 * p);
    assert x / 2 == q * p + r / 2 && 0 <= r / 2 < p;
    Quotient(q, r / 2, p);
  }

  lemma Quotient(q: nat, r: nat, p: nat)
    requires r < p
    ensures (q * p + r) / p == q
  {
    var d := (q * p + r) / p;
    assert q * p + r == d * p + (q * p + r) % p;
    if d > q { Scaled(q + 1, d, p); }
    if d < q { Scaled(d + 1, q, p); }
  }

  lemma Scaled(a: int, b: int, p: nat)
    requires a <= b
    ensures a * p <= b * p
  {
  }

  lemma Powers()
    ensures Pow2(0) == 1 && Pow2(8) == 0x100 && Pow2(16) == 0x1_0000 && Pow2(17) == 0x2_0000 && Pow2(20) == 0x10_0000
    ensures Pow2(22) == 0x40_0000 && Pow2(24) == 0x100_0000 && Pow2(28) == 0x1000_0000 && Pow2(32) == WORD
  {
    assert Pow2(4) == 16;
    assert Pow2(8) == 0x100;
    assert Pow2(12) == 0x1000;
    assert Pow2(16) == 0x1_0000;
    assert Pow2(20) == 0x10_0000;
    assert Pow2(24) == 0x100_0000;
    assert Pow2(28) == 0x1000_0000;
  }

  /** The four octets, most significant first. */
  lemma Shifted(b: seq<int>)
    requires IsQuad(b)
    ensures Shl(b[0], 24) == b[0] * 0x100_0000 && Shl(b[1], 16) == b[1] * 0x1_0000 && Shl(b[2], 8) == b[2] * 0x100
  {
    Powers();
    hide Pow2;
  }

  lemma ToIntIsPositional(b: seq<int>)
    requires IsQuad(b)
    ensures ToInt(b) == ((b[0] * 256 + b[1]) * 256 + b[2]) * 256 + b[3] < WORD
  {
    Powers();
    Shifted(b);
    hide Pow2, Or, Shl;
    var top := b[0] * 256 + b[1];
    OrOfDisjoint(b[0], 24, b[1] * 0x1_0000);
    assert b[0] * 0x100_0000 + b[1] * 0x1_0000 == top * 0x1_0000;
    OrOfDisjoint(top, 16, b[2] * 0x100);
    assert top * 0x1_0000 + b[2] * 0x100 == (top * 256 + b[2]) * 0x100;
    OrOfDisjoint(top * 256 + b[2], 8, b[3]);
  }

  lemma {:induction false} PowersGrow(a: nat, b: nat)
    requires a <= b
    ensures Pow2(a) <= Pow2(b)
    decreases b
  {
    if a < b { PowersGrow(a, b - 1); }
  }

  /** Ones in the top `prefix` bits. */
  lemma MaskIsOnes(prefix: int)
    requires 1 <= prefix <= 32
    ensures Mask(prefix) == Pow2(32) - Pow2(32 - prefix)
  {
    var p := Pow2(32 - prefix);
    Powers();
    PowersGrow(32 - prefix, 31);
    assert Pow2(32) == 2 * Pow2(31);
    hide Pow2;
    assert (WORD - 1) * p == (p - 1) * WORD + (WORD - p);
    Remainder(p - 1, WORD - p, WORD);
  }

  lemma Remainder(q: nat, r: nat, p: nat)
    requires r < p
    ensures (q * p + r) % p == r
  {
    Quotient(q, r, p);
    assert q * p + r == (q * p + r) / p * p + (q * p + r) % p;
  }

  lemma SameBlock(a: nat, n: nat, p: nat)
    requires p >= 1
    ensures a / p * p == n / p * p <==> n / p * p <= a <= n / p * p + p - 1
  {
    var first := n / p * p;
    assert a == a / p * p + a % p;
    if first <= a <= first + p - 1 {
      Quotient(n / p, a - first, p);
    }
  }

  /** The address lies in the block's integer interval. */
  predicate InBlock(a: nat, n: nat, prefix: int)
    requires 1 <= prefix <= 32
  {
    var size := Pow2(32 - prefix);
    var first := n / size * size;
    first <= a <= first + size - 1
  }

  lemma MaskedIsInterval(a: nat, n: nat, prefix: int)
    requires a < WORD && n < WORD && 1 <= prefix <= 32
    ensures And(a, Mask(prefix)) == And(n, Mask(prefix)) <==> InBlock(a, n, prefix)
  {
    var k := 32 - prefix;
    Powers();
    PowersGrow(k, 32);
    MaskIsOnes(prefix);
    AndMask(a, 32, k);
    AndMask(n, 32, k);
    SameBlock(a, n, Pow2(k));
    hide And, Pow2, Mask;
  }

  /** `withinCidr` holds exactly of the addresses in the block's interval, for prefixes 1 to 32 and a
      well-formed network; a default route and every other prefix match nothing. */
  lemma WithinCidrIsInterval(bytes: seq<int>, network: string, prefix: Option<int>)
    requires IsQuad(bytes)
    ensures WithinCidr(bytes, network, prefix) <==>
            && prefix.Some? && 1 <= prefix.value <= 32 && Ipv4Bytes(network).Some?
            && InBlock(ToInt(bytes), ToInt(Ipv4Bytes(network).value), prefix.value)
  {
    if prefix.Some? && 1 <= prefix.value <= 32 && Ipv4Bytes(network).Some? {
      var net := Ipv4Bytes(network).value;
      ToIntIsPositional(bytes);
      ToIntIsPositional(net);
      hide Ipv4Bytes, ToInt, And, Mask, InBlock;
      MaskedIsInterval(ToInt(bytes), ToInt(net), prefix.value);
    }
  }

  // ---- Refused ranges ----

  datatype Reason =
    | Unspecified | Loopback | LinkLocal | Multicast | Private | CarrierGradeNat | ProtocolAssignments
    | Documentation | Benchmarking | Reserved

  function ClassifyIpv4(b: seq<int>): (r: Option<Reason>)
    requires IsQuad(b)
  {
    if b[0] == 0 && b[1] == 0 && b[2] == 0 && b[3] == 0 then Some(Unspecified)
    else if b[0] == 127 then Some(Loopback)
    else if b[0] == 169 && b[1] == 254 then Some(LinkLocal)
    else if 224 <= b[0] <= 239 then Some(Multicast)
    else if b[0] == 10 then Some(Private)
    else if b[0] == 172 && 16 <= b[1] <= 31 then Some(Private)
    else if b[0] == 192 && b[1] == 168 then Some(Private)
    else if b[0] == 100 && 64 <= b[1] <= 127 then Some(CarrierGradeNat)
    else if b[0] == 192 && b[1] == 0 && b[2] == 0 then Some(ProtocolAssignments)
    else if (b[0] == 192 && b[1] == 0 && b[2] == 2) || (b[0] == 198 && b[1] == 51 && b[2] == 100)
      || (b[0] == 203 && b[1] == 0 && b[2] == 113) then
      Some(Documentation)
    else if b[0] == 198 && (b[1] == 18 || b[1] == 19) then Some(Benchmarking)
    else if b[0] >= 240 then Some(Reserved)
    else None
  }

  /** A registered block, by its network octets. */
  datatype Block = Block(network: seq<int>, prefix: int, reason: Reason)

  const BLOCKS: seq<Block> := [
    Block([0, 0, 0, 0], 32, Unspecified), Block([127, 0, 0, 0], 8, Loopback), Block([169, 254, 0, 0], 16, LinkLocal),
    Block([224, 0, 0, 0], 4, Multicast), Block([10, 0, 0, 0], 8, Private), Block([172, 16, 0, 0], 12, Private),
    Block([192, 168, 0, 0], 16, Private), Block([100, 64, 0, 0], 10, CarrierGradeNat),
    Block([192, 0, 0, 0], 24, ProtocolAssignments), Block([192, 0, 2, 0], 24, Documentation),
    Block([198, 51, 100, 0], 24, Documentation), Block([203, 0, 113, 0], 24, Documentation),
    Block([198, 18, 0, 0], 15, Benchmarking), Block([240, 0, 0, 0], 4, Reserved)]

  predicate Contains(block: Block, b: seq<int>)
    requires IsQuad(b)
  {
    IsQuad(block.network) && 1 <= block.prefix <= 32 && InBlock(ToInt(b), ToInt(block.network), block.prefix)
  }

  function Positional(b: seq<int>): int
    requires |b| == 4
  {
    ((b[0] * 256 + b[1]) * 256 + b[2]) * 256 + b[3]
  }

  lemma AlignedBlock(a: nat, n: nat, prefix: int, size: nat, q: nat)
    requires 1 <= prefix <= 32 && Pow2(32 - prefix) == size && n == q * size
    ensures InBlock(a, n, prefix) <==> n <= a < n + size
  {
    hide Pow2;
    Quotient(q, 0, size);
  }

  /** A block whose network is aligned to its size runs from it over that many addresses. */
  lemma ContainsIff(block: Block, b: seq<int>, size: nat, q: nat)
    requires IsQuad(b) && IsQuad(block.network) && 1 <= block.prefix <= 32
    requires Pow2(32 - block.prefix) == size && Positional(block.network) == q * size
    ensures Contains(block, b) <==> Positional(block.network) <= Positional(b) < Positional(block.network) + size
  {
    ToIntIsPositional(b);
    ToIntIsPositional(block.network);
    hide ToInt, Pow2, InBlock;
    AlignedBlock(ToInt(b), ToInt(block.network), block.prefix, size, q);
  }

  /** Which octets a block takes in. */
  predicate ByOctets(i: int, b: seq<int>)
    requires IsQuad(b) && 0 <= i < |BLOCKS|
  {
    match i
    case 0 => b[0] == 0 && b[1] == 0 && b[2] == 0 && b[3] == 0
    case 1 => b[0] == 127
    case 2 => b[0] == 169 && b[1] == 254
    case 3 => 224 <= b[0] <= 239
    case 4 => b[0] == 10
    case 5 => b[0] == 172 && 16 <= b[1] <= 31
    case 6 => b[0] == 192 && b[1] == 168
    case 7 => b[0] == 100 && 64 <= b[1] <= 127
    case 8 => b[0] == 192 && b[1] == 0 && b[2] == 0
    case 9 => b[0] == 192 && b[1] == 0 && b[2] == 2
    case 10 => b[0] == 198 && b[1] == 51 && b[2] == 100
    case 11 => b[0] == 203 && b[1] == 0 && b[2] == 113
    case 12 => b[0] == 198 && 18 <= b[1] <= 19
    case _ => 240 <= b[0]
  }

  lemma OctetsOfWideBlocks(i: int, b: seq<int>)
    requires IsQuad(b) && i in {1, 3, 4, 5, 7, 13}
    ensures Contains(BLOCKS[i], b) <==> ByOctets(i, b)
  {
    Powers();
    hide Pow2, Contains;
    if i == 1 { ContainsIff(BLOCKS[1], b, 0x100_0000, 127); }
    else if i == 3 { ContainsIff(BLOCKS[3], b, 0x1000_0000, 14); }
    else if i == 4 { ContainsIff(BLOCKS[4], b, 0x100_0000, 10); }
    else if i == 5 { ContainsIff(BLOCKS[5], b, 0x10_0000, 172 * 16 + 1); }
    else if i == 7 { ContainsIff(BLOCKS[7], b, 0x40_0000, 100 * 4 + 1); }
    else { ContainsIff(BLOCKS[13], b, 0x1000_0000, 15); }
  }

  lemma OctetsOfNarrowBlocks(i: int, b: seq<int>)
    requires IsQuad(b) && i in {8, 9, 10, 11}
    ensures Contains(BLOCKS[i], b) <==> ByOctets(i, b)
  {
    Powers();
    hide Pow2, Contains;
    if i == 8 { ContainsIff(BLOCKS[8], b, 0x100, 192 * 0x1_0000); }
    else if i == 9 { ContainsIff(BLOCKS[9], b, 0x100, 192 * 0x1_0000 + 2); }
    else if i == 10 { ContainsIff(BLOCKS[10], b, 0x100, 198 * 0x1_0000 + 51 * 256 + 100); }
    else { ContainsIff(BLOCKS[11], b, 0x100, 203 * 0x1_0000 + 113); }
  }

  lemma OctetsOfMiddleBlocks(i: int, b: seq<int>)
    requires IsQuad(b) && i in {0, 2, 6, 12}
    ensures Contains(BLOCKS[i], b) <==> ByOctets(i, b)
  {
    Powers();
    hide Pow2, Contains;
    if i == 0 { ContainsIff(BLOCKS[0], b, 1, 0); }
    else if i == 2 { ContainsIff(BLOCKS[2], b, 0x1_0000, 169 * 256 + 254); }
    else if i == 6 { ContainsIff(BLOCKS[6], b, 0x1_0000, 192 * 256 + 168); }
    else { ContainsIff(BLOCKS[12], b, 0x2_0000, 198 * 128 + 9); }
  }

  lemma ContainsIsByOctets(i: int, b: seq<int>)
    requires IsQuad(b) && 0 <= i < |BLOCKS|
    ensures Contains(BLOCKS[i], b) <==> ByOctets(i, b)
  {
    if i in {1, 3, 4, 5, 7, 13} { OctetsOfWideBlocks(i, b); }
    else if i in {8, 9, 10, 11} { OctetsOfNarrowBlocks(i, b); }
    else { OctetsOfMiddleBlocks(i, b); }
  }

  lemma OctetsDecide(i: int, b: seq<int>)
    requires IsQuad(b) && 0 <= i < |BLOCKS| && ByOctets(i, b)
    ensures ClassifyIpv4(b) == Some(BLOCKS[i].reason)
  {
  }

  /** The octet tests name exactly the registered blocks: an address in a block gets its reason, and
      one that gets a reason is in a block of that reason. */
  lemma ClassifiedIffInABlock(b: seq<int>, r: Reason)
    requires IsQuad(b)
    ensures ClassifyIpv4(b) == Some(r) <==> exists i | 0 <= i < |BLOCKS| ::
            Contains(BLOCKS[i], b) && BLOCKS[i].reason == r
  {
    if ClassifyIpv4(b) == Some(r) {
      var i := FirstBlock(b);
      ContainsIsByOctets(i, b);
    } else {
      hide ClassifyIpv4, Contains, ByOctets;
      forall i | 0 <= i < |BLOCKS| && Contains(BLOCKS[i], b) ensures BLOCKS[i].reason != r {
        ContainsIsByOctets(i, b);
        OctetsDecide(i, b);
      }
    }
  }

  function FirstBlock(b: seq<int>): (i: int)
    requires IsQuad(b) && ClassifyIpv4(b).Some?
    ensures 0 <= i < |BLOCKS| && ByOctets(i, b) && BLOCKS[i].reason == ClassifyIpv4(b).value
  {
    match ClassifyIpv4(b).value
    case Unspecified => 0
    case Loopback => 1
    case LinkLocal => 2
    case Multicast => 3
    case Private => if b[0] == 10 then 4 else if b[0] == 172 then 5 else 6
    case CarrierGradeNat => 7
    case ProtocolAssignments => 8
    case Documentation => if b[0] == 192 then 9 else if b[0] == 198 then 10 else 11
    case Benchmarking => 12
    case Reserved => 13
  }
}

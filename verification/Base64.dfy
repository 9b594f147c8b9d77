/** Base 64 with padding: section 4 of RFC 4648. */
module Base64 {
  import opened Utf8

  type Sextet = n: int | 0 <= n < 64

  const PAD: int := 0x3D

  /** Table 1 of RFC 4648, as ASCII codes. */
  function Symbol(n: Sextet): (u: int)
    ensures 0 <= u < 0x80 && u != PAD
  {
    if n < 26 then 0x41 + n
    else if n < 52 then 0x61 + (n - 26)
    else if n < 62 then 0x30 + (n - 52)
    else if n == 62 then 0x2B
    else 0x2F
  }

  /** The value of a symbol; -1 outside the alphabet. */
  function Value(u: int): (n: int)
    ensures -1 <= n < 64
    ensures n >= 0 ==> Symbol(n) == u
  {
    if 0x41 <= u <= 0x5A then u - 0x41
    else if 0x61 <= u <= 0x7A then u - 0x61 + 26
    else if 0x30 <= u <= 0x39 then u - 0x30 + 52
    else if u == 0x2B then 62
    else if u == 0x2F then 63
    else -1
  }

  /** Three octets as four sextets. */
  function Split(x: Byte, y: Byte, z: Byte): (r: (Sextet, Sextet, Sextet, Sextet)) {
    (x / 4, x % 4 * 16 + y / 16, y % 16 * 4 + z / 64, z % 64)
  }

  function Join(a: Sextet, b: Sextet, c: Sextet, d: Sextet): (r: (Byte, Byte, Byte)) {
    (a * 4 + b / 16, b % 16 * 16 + c / 4, c % 4 * 64 + d)
  }

  lemma JoinSplit(x: Byte, y: Byte, z: Byte)
    ensures var q := Split(x, y, z); Join(q.0, q.1, q.2, q.3) == (x, y, z)
  {
    Sixteenths(x % 4, y / 16);
    Quarters(y % 16, z / 64);
  }

  lemma Sixteenths(high: int, low: int)
    requires 0 <= low < 16
    ensures (high * 16 + low) / 16 == high && (high * 16 + low) % 16 == low
  {
  }

  lemma Quarters(high: int, low: int)
    requires 0 <= low < 4
    ensures (high * 4 + low) / 4 == high && (high * 4 + low) % 4 == low
  {
  }

  /** A short last group is zero filled and its missing symbols are pads. */
  function ToBase64(s: seq<Byte>): (t: seq<int>)
    ensures forall i | 0 <= i < |t| :: 0 <= t[i] < 0x80
  {
    if s == [] then []
    else if |s| == 1 then
      var q := Split(s[0], 0, 0);
      [Symbol(q.0), Symbol(q.1), PAD, PAD]
    else if |s| == 2 then
      var q := Split(s[0], s[1], 0);
      [Symbol(q.0), Symbol(q.1), Symbol(q.2), PAD]
    else
      var q := Split(s[0], s[1], s[2]);
      [Symbol(q.0), Symbol(q.1), Symbol(q.2), Symbol(q.3)] + ToBase64(s[3..])
  }

  /** Four symbols for every three bytes, the last group filled up. */
  lemma {:induction false} Base64Length(s: seq<Byte>)
    ensures |ToBase64(s)| == (|s| + 2) / 3 * 4
  {
    hide Split, Symbol;
    if |s| >= 3 { Base64Length(s[3..]); }
  }

  datatype Octets = Invalid | Octets(bytes: seq<Byte>)

  /** The bytes a base 64 text stands for. */
  function FromBase64(t: seq<int>): (r: Octets) {
    if t == [] then Octets([])
    else if |t| < 4 || Value(t[0]) < 0 || Value(t[1]) < 0 then Invalid
    else if |t| == 4 && t[2] == PAD && t[3] == PAD then Octets([Join(Value(t[0]), Value(t[1]), 0, 0).0])
    else if Value(t[2]) < 0 then Invalid
    else if |t| == 4 && t[3] == PAD then
      var o := Join(Value(t[0]), Value(t[1]), Value(t[2]), 0);
      Octets([o.0, o.1])
    else if Value(t[3]) < 0 then Invalid
    else match FromBase64(t[4..])
      case Invalid => Invalid
      case Octets(rest) =>
        var o := Join(Value(t[0]), Value(t[1]), Value(t[2]), Value(t[3]));
        Octets([o.0, o.1, o.2] + rest)
  }

  lemma ValueOfSymbol(n: Sextet)
    ensures Value(Symbol(n)) == n
  {
  }

  lemma ValuesOfGroup(x: Byte, y: Byte, z: Byte)
    ensures var q := Split(x, y, z);
            && Value(Symbol(q.0)) == q.0 && Value(Symbol(q.1)) == q.1
            && Value(Symbol(q.2)) == q.2 && Value(Symbol(q.3)) == q.3
            && Join(q.0, q.1, q.2, q.3) == (x, y, z)
  {
    JoinSplit(x, y, z);
    hide Split;
    var q := Split(x, y, z);
    ValueOfSymbol(q.0);
    ValueOfSymbol(q.1);
    ValueOfSymbol(q.2);
    ValueOfSymbol(q.3);
  }

  lemma ShortGroups(x: Byte, y: Byte)
    ensures var q := Split(x, 0, 0); Join(q.0, q.1, 0, 0).0 == x
    ensures var q := Split(x, y, 0); Join(q.0, q.1, q.2, 0).0 == x && Join(q.0, q.1, q.2, 0).1 == y
  {
  }

  lemma {:induction false} LastGroup(s: seq<Byte>)
    requires 1 <= |s| <= 2
    ensures FromBase64(ToBase64(s)) == Octets(s)
  {
    ValuesOfGroup(s[0], if |s| == 2 then s[1] else 0, 0);
    ShortGroups(s[0], if |s| == 2 then s[1] else 0);
    hide Split, Join, Symbol, Value;
  }

  lemma {:induction false} FirstGroup(s: seq<Byte>)
    requires |s| >= 3 && FromBase64(ToBase64(s[3..])) == Octets(s[3..])
    ensures FromBase64(ToBase64(s)) == Octets(s)
  {
    ValuesOfGroup(s[0], s[1], s[2]);
    hide Split, Join, Symbol, Value, FromBase64;
    var q := Split(s[0], s[1], s[2]);
    UndoGroup(Symbol(q.0), Symbol(q.1), Symbol(q.2), Symbol(q.3), ToBase64(s[3..]), s[3..]);
    assert s == [s[0], s[1], s[2]] + s[3..];
  }

  lemma {:induction false} UndoGroup(a: int, b: int, c: int, d: int, t: seq<int>, rest: seq<Byte>)
    requires Value(a) >= 0 && Value(b) >= 0 && Value(c) >= 0 && Value(d) >= 0 && FromBase64(t) == Octets(rest)
    ensures var o := Join(Value(a), Value(b), Value(c), Value(d));
            FromBase64([a, b, c, d] + t) == Octets([o.0, o.1, o.2] + rest)
  {
    assert Value(PAD) < 0;
    hide Join, Symbol, Value;
    var all := [a, b, c, d] + t;
    assert all[4..] == t && all[0] == a && all[1] == b && all[2] == c && all[3] == d;
  }

  /** Undoing base 64 returns the bytes, whatever they were. */
  lemma {:induction false} Base64RoundTrip(s: seq<Byte>)
    ensures FromBase64(ToBase64(s)) == Octets(s)
  {
    if 1 <= |s| <= 2 {
      LastGroup(s);
    } else if |s| >= 3 {
      Base64RoundTrip(s[3..]);
      FirstGroup(s);
    }
  }
}

// What well-formed UTF-8 is the encoding of: scalar values, each in the octets that
// section 3 of RFC 3629 gives them.

module Scalars {
  import opened Utf8

  predicate IsScalar(n: int) {
    0 <= n <= 0x10FFFF && !(0xD800 <= n <= 0xDFFF)
  }

  function Octet(n: int): (c: char)
    requires 0 <= n <= 0xFF
    ensures c as int == n
  {
    n as char
  }

  function Encode(n: int): (s: string)
    requires IsScalar(n)
    ensures 1 <= |s| <= 4
  {
    if n <= 0x7F then [Octet(n)]
    else if n <= 0x7FF then [Octet(0xC0 + n / 64), Octet(0x80 + n % 64)]
    else if n <= 0xFFFF then [Octet(0xE0 + n / 4096), Octet(0x80 + n / 64 % 64), Octet(0x80 + n % 64)]
    else [Octet(0xF0 + n / 262144), Octet(0x80 + n / 4096 % 64), Octet(0x80 + n / 64 % 64), Octet(0x80 + n % 64)]
  }

  predicate AreScalars(ns: seq<int>) {
    forall i :: 0 <= i < |ns| ==> IsScalar(ns[i])
  }

  function EncodeAll(ns: seq<int>): string
    requires AreScalars(ns)
  {
    if ns == [] then "" else Encode(ns[0]) + EncodeAll(ns[1..])
  }

  // A value from its groups of six bits, and back.
  lemma TailOctets(a: int, b: int)
    requires 0 <= b < 64
    ensures (a * 64 + b) / 64 == a && (a * 64 + b) % 64 == b
  {
  }

  lemma ThreeGroups(a: int, b: int, c: int)
    requires 0 <= a && 0 <= b < 64 && 0 <= c < 64
    ensures var n := a * 4096 + b * 64 + c; n / 4096 == a && n / 64 % 64 == b && n % 64 == c
  {
    TailOctets(a * 64 + b, c);
    TailOctets(a, b);
  }

  lemma FourGroups(a: int, b: int, c: int, d: int)
    requires 0 <= a && 0 <= b < 64 && 0 <= c < 64 && 0 <= d < 64
    ensures var n := a * 262144 + b * 4096 + c * 64 + d;
      n / 262144 == a && n / 4096 % 64 == b && n / 64 % 64 == c && n % 64 == d
  {
    ThreeGroups(a * 64 + b, c, d);
    TailOctets(a, b);
  }

  // The octets that may follow the first one of three, and of four.
  lemma ThreeOctets(n: int)
    requires IsScalar(n) && 0x7FF < n <= 0xFFFF
    ensures var a, b := 0xE0 + n / 4096, 0x80 + n / 64 % 64;
      a <= 0xEF && (a == 0xE0 ==> b >= 0xA0) && (a == 0xED ==> b <= 0x9F)
  {
    assert n / 64 == n / 4096 * 64 + n / 64 % 64;
  }

  lemma FourOctets(n: int)
    requires IsScalar(n) && 0xFFFF < n
    ensures var a, b := 0xF0 + n / 262144, 0x80 + n / 4096 % 64;
      a <= 0xF4 && (a == 0xF0 ==> b >= 0x90) && (a == 0xF4 ==> b <= 0x8F)
  {
    assert n / 4096 == n / 262144 * 64 + n / 4096 % 64;
  }

  // The first character of a text that begins with an encoded value is that value's.
  lemma EncodedLength(n: int, rest: string)
    requires IsScalar(n)
    ensures CharLength(Encode(n) + rest) == |Encode(n)|
  {
    var e := Encode(n);
    var s := e + rest;
    assert forall i :: 0 <= i < |e| ==> s[i] == e[i];
    if n > 0xFFFF {
      FourOctets(n);
      assert s[0] == e[0] && s[1] == e[1] && s[2] == e[2] && s[3] == e[3];
    } else if n > 0x7FF {
      ThreeOctets(n);
      assert s[0] == e[0] && s[1] == e[1] && s[2] == e[2];
    } else if n > 0x7F {
      assert s[0] == e[0] && s[1] == e[1];
    } else {
      assert s[0] == e[0];
    }
  }

  // And every first character is some value's.
  lemma CharIsEncoded(s: string) returns (n: int)
    requires CharLength(s) > 0
    ensures IsScalar(n) && Encode(n) == s[..CharLength(s)]
  {
    var length, a := CharLength(s), s[0] as int;
    if length == 1 {
      n := a;
    } else if length == 2 {
      var b := s[1] as int - 0x80;
      n := (a - 0xC0) * 64 + b;
      TailOctets(a - 0xC0, b);
    } else if length == 3 {
      n := ThreeIsEncoded(s);
    } else {
      n := FourIsEncoded(s);
    }
  }

  lemma ThreeIsEncoded(s: string) returns (n: int)
    requires CharLength(s) == 3
    ensures IsScalar(n) && Encode(n) == s[..3]
  {
    var a, b, c := s[0] as int - 0xE0, s[1] as int - 0x80, s[2] as int - 0x80;
    n := a * 4096 + b * 64 + c;
    ThreeGroups(a, b, c);
  }

  lemma FourIsEncoded(s: string) returns (n: int)
    requires CharLength(s) == 4
    ensures IsScalar(n) && Encode(n) == s[..4]
  {
    var a, b, c, d := s[0] as int - 0xF0, s[1] as int - 0x80, s[2] as int - 0x80, s[3] as int - 0x80;
    n := a * 262144 + b * 4096 + c * 64 + d;
    FourGroups(a, b, c, d);
  }

  lemma {:induction false} EncodedIsWellFormed(ns: seq<int>)
    requires AreScalars(ns)
    ensures WellFormed(EncodeAll(ns))
    decreases |ns|
  {
    if ns != [] {
      EncodedIsWellFormed(ns[1..]);
      EncodedLength(ns[0], EncodeAll(ns[1..]));
      assert EncodeAll(ns)[|Encode(ns[0])|..] == EncodeAll(ns[1..]);
    }
  }

  lemma {:induction false} WellFormedDecodes(s: string) returns (ns: seq<int>)
    requires WellFormed(s)
    ensures AreScalars(ns) && EncodeAll(ns) == s
    decreases |s|
  {
    if s == "" {
      return [];
    }
    var k := CharLength(s);
    var n := CharIsEncoded(s);
    var rest := WellFormedDecodes(s[k..]);
    ns := [n] + rest;
    assert ns[1..] == rest && s == s[..k] + s[k..];
  }

  // A text is well formed if and only if it is the encoding of some scalar values.
  lemma WellFormedMeans(s: string)
    ensures WellFormed(s) <==> exists ns :: AreScalars(ns) && EncodeAll(ns) == s
  {
    if WellFormed(s) {
      var ns := WellFormedDecodes(s);
    }
    forall ns | AreScalars(ns) && EncodeAll(ns) == s ensures WellFormed(s) {
      EncodedIsWellFormed(ns);
    }
  }
}

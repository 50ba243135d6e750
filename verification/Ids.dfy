// Sortable identifiers (src/clawt-util.c, clawt_generate_id).

module Ids {
  import opened Options
  import opened Arithmetic

  const ALPHABET: string := "0123456789abcdefghjkmnpqrstvwxyz"

  // k base-32 digits of n, most significant first. Dividing and taking the
  // remainder of a negative n are the arithmetic shift and mask of the C code.
  function Stamp(n: int, k: nat): (s: string)
    ensures |s| == k
    decreases k
  {
    if k == 0 then "" else Stamp(n / 32, k - 1) + [ALPHABET[n % 32]]
  }

  predicate IsRandomPart(s: string) {
    |s| == 10 && forall i :: 0 <= i < 10 ==> s[i] in ALPHABET
  }

  function Id(prefix: Option<string>, stamp: string, random: string): string {
    if prefix.Some? then prefix.value + "-" + stamp + random else stamp + random
  }

  // Dividing microseconds by 1000 rounds toward zero.
  function Milliseconds(realTime: int): int {
    if realTime >= 0 then realTime / 1000 else -(-realTime / 1000)
  }

  // The millisecond a time falls in; before the epoch, the one it ends or comes before.
  lemma MillisecondsMean(realTime: int)
    ensures var ms := Milliseconds(realTime);
      if realTime >= 0 then 0 <= ms && ms * 1000 <= realTime < (ms + 1) * 1000
      else ms <= 0 && (ms - 1) * 1000 < realTime <= ms * 1000
  {
  }

  predicate AreDigits(s: string) {
    forall i :: 0 <= i < |s| ==> s[i] in ALPHABET
  }

  ghost function Digit(c: char): (d: nat)
    requires c in ALPHABET
    ensures d < |ALPHABET| && ALPHABET[d] == c
  {
    var d: nat :| d < |ALPHABET| && ALPHABET[d] == c;
    d
  }

  ghost function Decode(s: string): nat
    requires AreDigits(s)
  {
    if s == "" then 0 else 32 * Decode(s[..|s| - 1]) + Digit(s[|s| - 1])
  }

  // Ten digits that, read as a number, are the millisecond a time falls in.
  ghost predicate Tells(stamp: string, realTime: int) {
    |stamp| == 10 && AreDigits(stamp) && Decode(stamp) * 1000 <= realTime < (Decode(stamp) + 1) * 1000
  }

  // The loop that appends random characters.
  method RandomPart() returns (part: string)
    ensures IsRandomPart(part)
  {
    part := "";
    while |part| < 10
      invariant |part| <= 10 && forall k :: 0 <= k < |part| ==> part[k] in ALPHABET
      decreases 10 - |part|
    {
      var r: nat :| r < 32;
      part := part + [ALPHABET[r]];
    }
  }

  lemma StampUnfolds(n: int, k: nat)
    ensures Stamp(n, k + 1) == Stamp(n / 32, k) + [ALPHABET[n % 32]]
  {
  }

  lemma StampOfNone(n: int)
    ensures Stamp(n, 0) == ""
  {
  }

  lemma IdIsPut(prefix: Option<string>, stamp: string, random: string)
    ensures Id(prefix, stamp, random) == (if prefix.Some? then prefix.value + "-" else "") + stamp + random
  {
    assert "" + stamp == stamp;
  }

  // The digits are those of the millisecond the time falls in.
  method GenerateId(prefix: Option<string>, realTime: int) returns (id: string)
    ensures exists random :: IsRandomPart(random) && id == Id(prefix, Stamp(Milliseconds(realTime), 10), random)
    ensures 0 <= realTime < 1000 * 0x4_0000_0000_0000 ==>
      exists stamp, random :: Tells(stamp, realTime) && IsRandomPart(random) &&
        id == (if prefix.Some? then prefix.value + "-" else "") + stamp + random
  {
    hide Tells, Id, IsRandomPart, Stamp, Milliseconds;
    var nowMs := Milliseconds(realTime);
    var timestamp := new char[10];
    ghost var goal := Stamp(nowMs, 10);
    var rest := nowMs;
    var i := 9;
    while i >= 0
      invariant -1 <= i <= 9
      invariant goal == Stamp(rest, i + 1) + timestamp[i + 1..]
    {
      ghost var later := timestamp[i + 1..];
      timestamp[i] := ALPHABET[rest % 32];
      assert timestamp[i..] == [ALPHABET[rest % 32]] + later;
      StampUnfolds(rest, i);
      rest := rest / 32;
      i := i - 1;
    }
    StampOfNone(rest);
    assert timestamp[i + 1..] == timestamp[..];
    assert "" + timestamp[..] == timestamp[..];
    var part := RandomPart();
    IdIsPut(prefix, timestamp[..], part);
    id := Id(prefix, timestamp[..], part);
    if 0 <= realTime < 1000 * 0x4_0000_0000_0000 {
      StampTells(realTime);
    }
  }

  // strcmp() < 0
  predicate Before(a: string, b: string) {
    b != "" && (a == "" || a[0] < b[0] || (a[0] == b[0] && Before(a[1..], b[1..])))
  }

  lemma AlphabetAscends(i: nat, j: nat)
    requires i < 32 && j < 32
    ensures ALPHABET[i] < ALPHABET[j] <==> i < j
  {
  }

  lemma {:induction false} BeforePush(x: string, y: string, c: char, d: char)
    requires |x| == |y|
    ensures Before(x + [c], y + [d]) <==> Before(x, y) || (x == y && c < d)
  {
    if x == "" {
      assert x + [c] == [c] && y + [d] == [d];
    } else {
      BeforePush(x[1..], y[1..], c, d);
      assert (x + [c])[1..] == x[1..] + [c] && (y + [d])[1..] == y[1..] + [d];
      assert x == [x[0]] + x[1..] && y == [y[0]] + y[1..];
    }
  }

  lemma {:induction false} BeforeExtend(p: string, x: string, y: string, r: string, q: string)
    requires |x| == |y| && Before(x, y)
    ensures Before(p + x + r, p + y + q)
    decreases |p|, |x|
  {
    if p != "" {
      BeforeExtend(p[1..], x, y, r, q);
      assert (p + x + r)[1..] == p[1..] + x + r && (p + y + q)[1..] == p[1..] + y + q;
    } else {
      assert p + x + r == x + r && p + y + q == y + q;
      if x[0] == y[0] {
        BeforeExtend("", x[1..], y[1..], r, q);
        assert "" + x[1..] + r == (x + r)[1..] && "" + y[1..] + q == (y + q)[1..];
      }
    }
  }

  // The digits order and determine the number they are digits of, modulo 32^k.
  lemma {:induction false} StampOrder(m: int, n: int, k: nat)
    ensures Power(32, k) > 0
    ensures Before(Stamp(m, k), Stamp(n, k)) <==> m % Power(32, k) < n % Power(32, k)
    ensures Stamp(m, k) == Stamp(n, k) <==> m % Power(32, k) == n % Power(32, k)
    decreases k
  {
    if k > 0 {
      StampOrder(m / 32, n / 32, k - 1);
      SplitDigit(m, 32, Power(32, k - 1));
      SplitDigit(n, 32, Power(32, k - 1));
      BeforePush(Stamp(m / 32, k - 1), Stamp(n / 32, k - 1), ALPHABET[m % 32], ALPHABET[n % 32]);
      AlphabetAscends(m % 32, n % 32);
      AlphabetAscends(n % 32, m % 32);
      PushIsInjective(Stamp(m / 32, k - 1), Stamp(n / 32, k - 1), ALPHABET[m % 32], ALPHABET[n % 32]);
    }
  }

  lemma PushIsInjective(x: string, y: string, c: char, d: char)
    requires |x| == |y|
    ensures x + [c] == y + [d] <==> x == y && c == d
  {
    if x + [c] == y + [d] {
      assert x == (x + [c])[..|x|] && y == (y + [d])[..|y|];
      assert (x + [c])[|x|] == c && (y + [d])[|y|] == d;
    }
  }

  lemma {:induction false} DecodeStamp(n: int, k: nat)
    ensures AreDigits(Stamp(n, k))
    ensures Power(32, k) > 0 && Decode(Stamp(n, k)) == n % Power(32, k)
    decreases k
  {
    if k > 0 {
      DecodeStamp(n / 32, k - 1);
      SplitDigit(n, 32, Power(32, k - 1));
      var s := Stamp(n, k);
      assert s[..|s| - 1] == Stamp(n / 32, k - 1);
      var d := Digit(ALPHABET[n % 32]);
      AlphabetAscends(d, n % 32);
      AlphabetAscends(n % 32, d);
    }
  }

  lemma IdsSortByStamp(prefix: Option<string>, s: string, t: string, r: string, q: string)
    requires |s| == |t| && Before(s, t)
    ensures Before(Id(prefix, s, r), Id(prefix, t, q))
  {
    var p := if prefix.Some? then prefix.value + "-" else "";
    BeforeExtend(p, s, t, r, q);
    assert "" + s == s && "" + t == t;
  }

  // The ten digits the code writes hold 50 bits.
  lemma TenDigits()
    ensures Power(32, 10) == 0x4_0000_0000_0000
  {
    assert Power(32, 5) == 0x200_0000;
  }

  // As long as the milliseconds fit the digits, an earlier one sorts first
  // under the same prefix, whatever the random parts.
  lemma IdsSortByTime(prefix: Option<string>, m: nat, n: nat, digits: nat, r: string, q: string)
    requires m < n < Power(32, digits)
    ensures Before(Id(prefix, Stamp(m, digits), r), Id(prefix, Stamp(n, digits), q))
  {
    SmallRemainder(m, Power(32, digits));
    SmallRemainder(n, Power(32, digits));
    StampOrder(m, n, digits);
    IdsSortByStamp(prefix, Stamp(m, digits), Stamp(n, digits), r, q);
  }

  // By the clock: an identifier made a millisecond or more after another sorts after it.
  lemma IdsSortByClock(prefix: Option<string>, earlier: int, later: int, r: string, q: string)
    requires 0 <= earlier && earlier + 1000 <= later < 1000 * 0x4_0000_0000_0000
    ensures Before(Id(prefix, Stamp(Milliseconds(earlier), 10), r), Id(prefix, Stamp(Milliseconds(later), 10), q))
  {
    MillisecondsMean(earlier);
    MillisecondsMean(later);
    TenDigits();
    IdsSortByTime(prefix, Milliseconds(earlier), Milliseconds(later), 10, r, q);
  }

  // And the digits give them back.
  lemma TimestampComesBack(n: nat, digits: nat)
    requires n < Power(32, digits)
    ensures AreDigits(Stamp(n, digits))
    ensures Decode(Stamp(n, digits)) == n
  {
    SmallRemainder(n, Power(32, digits));
    DecodeStamp(n, digits);
  }

  // What stands in an identifier tells when it was made.
  lemma StampTells(realTime: int)
    requires 0 <= realTime < 1000 * 0x4_0000_0000_0000
    ensures Tells(Stamp(Milliseconds(realTime), 10), realTime)
  {
    hide Stamp, Decode, AreDigits;
    MillisecondsMean(realTime);
    TenDigits();
    TimestampComesBack(Milliseconds(realTime), 10);
  }
}

// Comparison without early return (src/clawt-util.c, clawt_secure_equals), and
// exactly which lengths it can be trusted with.

module SecureEquals {
  import opened Options
  import opened Arithmetic

  // Bitwise operators on unsigned integers, one bit at a time.

  function Xor(a: nat, b: nat): nat {
    if a == 0 && b == 0 then 0 else 2 * Xor(a / 2, b / 2) + (if a % 2 != b % 2 then 1 else 0)
  }

  function Or(a: nat, b: nat): nat {
    if a == 0 && b == 0 then 0 else 2 * Or(a / 2, b / 2) + (if a % 2 == 1 || b % 2 == 1 then 1 else 0)
  }

  function ShiftRight(n: nat, k: nat): nat {
    if k == 0 then n else ShiftRight(n / 2, k - 1)
  }

  // The cast to guchar.
  function Byte(n: nat): nat {
    n % 256
  }

  // A C string holds bytes other than NUL.
  predicate IsCString(s: string) {
    forall i :: 0 <= i < |s| ==> 0 < s[i] as int < 256
  }

  // The byte the loop reads for index i.
  function At(s: string, i: nat): nat {
    if |s| > 0 then s[i % |s|] as int else 0
  }

  function Fold(x: nat): nat {
    Byte(Or(Or(x, ShiftRight(x, 8)), ShiftRight(x, 16)))
  }

  function Longer(a: string, b: string): nat {
    if |a| < |b| then |b| else |a|
  }

  method SecureEqual(a: Option<string>, b: Option<string>) returns (equal: bool)
    requires (a.Some? ==> IsCString(a.value)) && (b.Some? ==> IsCString(b.value))
    ensures equal <==> a.Some? && b.Some? && Matches(a.value, b.value)
  {
    if a.None? || b.None? {
      return false;
    }
    var s, t := a.value, b.value;
    var x := Xor(|s|, |t|);
    var diff := Fold(x);
    FoldIsLowBits(|s|, |t|);
    for i := 0 to Longer(s, t)
      invariant diff == 0 <==>
        |s| % TRUSTED == |t| % TRUSTED && forall k :: 0 <= k < i ==> At(s, k) == At(t, k)
    {
      var ca := if |s| > 0 then s[i % |s|] as int else 0;
      var cb := if |t| > 0 then t[i % |t|] as int else 0;
      assert ca == At(s, i) && cb == At(t, i) && ca < 256 && cb < 256;
      ByteXor(ca, cb);
      OrIsZero(diff, Byte(Xor(ca, cb)));
      diff := Or(diff, Byte(Xor(ca, cb)));
    }
    return diff == 0;
  }

  // Lengths are compared modulo this: 24 bits are folded in.
  const TRUSTED: nat := 0x100_0000

  // What a true answer means.
  ghost predicate Matches(a: string, b: string) {
    |a| % TRUSTED == |b| % TRUSTED && forall k :: 0 <= k < Longer(a, b) ==> At(a, k) == At(b, k)
  }

  // ---------------------------------------------------------------------
  // Bits.

  predicate LowZero(n: nat, k: nat) {
    k == 0 || (n % 2 == 0 && LowZero(n / 2, k - 1))
  }

  lemma {:induction false} LowZeroIsRemainder(n: nat, k: nat)
    ensures LowZero(n, k) <==> n % Power(2, k) == 0
  {
    if k > 0 {
      LowZeroIsRemainder(n / 2, k - 1);
      SplitDigit(n, 2, Power(2, k - 1));
    }
  }

  lemma {:induction false} LowZeroOr(a: nat, b: nat, k: nat)
    ensures LowZero(Or(a, b), k) <==> LowZero(a, k) && LowZero(b, k)
    decreases k
  {
    if k > 0 {
      LowZeroOr(a / 2, b / 2, k - 1);
      if a == 0 && b == 0 {
      } else {
        assert Or(a, b) / 2 == Or(a / 2, b / 2);
      }
    }
  }

  lemma {:induction false} LowZeroXor(a: nat, b: nat, k: nat)
    ensures LowZero(Xor(a, b), k) <==> a % Power(2, k) == b % Power(2, k)
    decreases k
  {
    if k > 0 {
      LowZeroXor(a / 2, b / 2, k - 1);
      SplitDigit(a, 2, Power(2, k - 1));
      SplitDigit(b, 2, Power(2, k - 1));
      if !(a == 0 && b == 0) {
        assert Xor(a, b) / 2 == Xor(a / 2, b / 2);
      }
    }
  }

  lemma {:induction false} LowZeroShift(n: nat, j: nat, k: nat)
    ensures LowZero(n, j + k) <==> LowZero(n, j) && LowZero(ShiftRight(n, j), k)
    decreases j
  {
    if j > 0 {
      LowZeroShift(n / 2, j - 1, k);
    }
  }

  lemma PowersOfTwo()
    ensures Power(2, 8) == 256 && Power(2, 24) == TRUSTED
  {
    assert Power(2, 4) == 16 && Power(2, 8) == 256;
    assert Power(2, 12) == 4096 && Power(2, 16) == 65536;
    assert Power(2, 20) == 0x10_0000;
  }

  lemma FoldIsLowBits(m: nat, n: nat)
    ensures Fold(Xor(m, n)) == 0 <==> m % TRUSTED == n % TRUSTED
  {
    var x := Xor(m, n);
    var both := Or(x, ShiftRight(x, 8));
    PowersOfTwo();
    LowZeroIsRemainder(Or(both, ShiftRight(x, 16)), 8);
    LowZeroOr(both, ShiftRight(x, 16), 8);
    LowZeroOr(x, ShiftRight(x, 8), 8);
    LowZeroShift(x, 8, 8);
    LowZeroShift(x, 16, 8);
    LowZeroXor(m, n, 24);
  }

  lemma {:induction false} OrIsZero(a: nat, b: nat)
    ensures Or(a, b) == 0 <==> a == 0 && b == 0
    decreases a + b
  {
    if !(a == 0 && b == 0) {
      OrIsZero(a / 2, b / 2);
    }
  }

  lemma ByteXor(a: nat, b: nat)
    requires a < 256 && b < 256
    ensures Byte(Xor(a, b)) == 0 <==> a == b
  {
    PowersOfTwo();
    XorRemainder(a, b, 8);
    SmallRemainder(a, 256);
    SmallRemainder(b, 256);
  }

  lemma XorRemainder(a: nat, b: nat, k: nat)
    ensures Xor(a, b) % Power(2, k) == 0 <==> a % Power(2, k) == b % Power(2, k)
  {
    LowZeroXor(a, b, k);
    LowZeroIsRemainder(Xor(a, b), k);
  }

  // ---------------------------------------------------------------------
  // When the answer is equality.

  // Lengths the folded difference tells apart, or that the bytes do.
  predicate Told(m: nat, n: nat) {
    m == n || m == 0 || n == 0 || m % TRUSTED != n % TRUSTED
  }

  lemma MatchesIsEquality(a: string, b: string)
    requires IsCString(a) && IsCString(b) && Told(|a|, |b|)
    ensures Matches(a, b) <==> a == b
  {
    assert At(a, 0) == 0 <==> |a| == 0;
    assert At(b, 0) == 0 <==> |b| == 0;
    if Matches(a, b) {
      if |a| == |b| {
        forall k | 0 <= k < |a| ensures a[k] == b[k] {
          assert k % |a| == k;
          assert At(a, k) == At(b, k);
        }
      }
    }
  }

  function Xs(n: nat): (s: string)
    ensures |s| == n
  {
    seq(n, _ => 'x')
  }

  // For a pair of lengths, the comparison is equality on every pair of C
  // strings of those lengths exactly when the lengths are told apart.
  lemma TrustedExactlyWhenTold(m: nat, n: nat)
    ensures Told(m, n) <==>
      forall a, b :: IsCString(a) && IsCString(b) && |a| == m && |b| == n ==> (Matches(a, b) <==> a == b)
  {
    if Told(m, n) {
      forall a, b | IsCString(a) && IsCString(b) && |a| == m && |b| == n ensures Matches(a, b) <==> a == b {
        MatchesIsEquality(a, b);
      }
    } else {
      var a, b := Xs(m), Xs(n);
      assert IsCString(a) && IsCString(b) && Matches(a, b) && a != b;
    }
  }

  // All C strings shorter than 2^24 bytes.
  lemma ShortStringsAreSafe(a: string, b: string)
    requires IsCString(a) && IsCString(b) && |a| < TRUSTED && |b| < TRUSTED
    ensures Matches(a, b) <==> a == b
  {
    MatchesIsEquality(a, b);
  }

  // A concrete pair of different strings that compare as equal.
  lemma LongStringsCanCollide()
    ensures var a, b := Xs(1), Xs(1 + TRUSTED);
      IsCString(a) && IsCString(b) && a != b && Matches(a, b)
  {
    var a, b := Xs(1), Xs(1 + TRUSTED);
    assert forall k :: 0 <= k < |b| ==> At(a, k) == 'x' as int && At(b, k) == 'x' as int;
  }
}

// Remainders by a product, for counting digits and bits.

module Arithmetic {

  lemma {:induction false} RemainderIsUnique(n: int, d: int, q: int, r: int)
    requires d > 0 && n == d * q + r && 0 <= r < d
    ensures n % d == r && n / d == q
  {
    var k := n / d - q;
    assert n == d * (n / d) + n % d;
    assert d * k == r - n % d by {
      assert d * k == d * (n / d) - d * q;
    }
    if k >= 1 {
      MultipleIsLarge(d, k);
    } else if k <= -1 {
      MultipleIsLarge(d, -k);
    }
  }

  lemma MultipleIsLarge(d: int, k: int)
    requires d > 0 && k >= 1
    ensures d * k >= d && d * -k <= -d
  {
  }

  lemma SmallRemainder(n: int, d: int)
    requires 0 <= n < d
    ensures n % d == n
  {
    RemainderIsUnique(n, d, 0, n);
  }

  // The lowest digit in base c, and the others.
  lemma SplitDigit(n: int, c: int, m: int)
    requires c > 0 && m > 0
    ensures c * m > 0
    ensures n % (c * m) == c * ((n / c) % m) + n % c
  {
    var h := n / c;
    var q, s := h / m, h % m;
    var r := c * s + n % c;
    assert n == c * h + n % c && h == m * q + s;
    Expand(c, m, q, s);
    ScaledRemainder(c, m, s);
    RemainderIsUnique(n, c * m, q, r);
  }

  lemma Expand(c: int, m: int, q: int, s: int)
    ensures c * (m * q + s) == (c * m) * q + c * s
  {
  }

  lemma ScaledRemainder(c: int, m: int, s: int)
    requires c > 0 && m > 0 && 0 <= s < m
    ensures c * m > 0 && 0 <= c * s <= c * m - c
  {
    assert c * s <= c * (m - 1);
  }

  function Power(b: nat, k: nat): (p: nat)
    ensures b > 0 ==> p > 0
  {
    if k == 0 then 1 else b * Power(b, k - 1)
  }
}

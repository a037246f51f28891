/** Facts about products, quotients, remainders and bounds. */
module Arithmetic {

  function Min(a: int, b: int): int {
    if a < b then a else b
  }

  function Max(a: int, b: int): int {
    if a < b then b else a
  }

  lemma AddressFacts(bs: nat, o: nat)
    requires bs > 0
    ensures o == (o / bs) * bs + o % bs
    ensures 0 <= o % bs < bs
    ensures 0 <= o / bs
  {
  }

  /** A quotient and remainder in range are the only ones. */
  lemma QuotientUnique(bs: nat, q: int, r: nat, o: nat)
    requires r < bs
    requires o == q * bs + r
    ensures o / bs == q
    ensures o % bs == r
  {
    AddressFacts(bs, o);
    var q' := o / bs;
    if q' > q {
      MulAtLeast(q' - q, bs);
    } else if q' < q {
      MulAtLeast(q - q', bs);
    }
  }

  lemma MulAtLeast(n: int, m: nat)
    requires n >= 1
    ensures n * m >= m
  {
    assert n * m == m + (n - 1) * m;
  }

  lemma MulMonotone(a: int, b: int, m: nat)
    ensures a <= b ==> a * m <= b * m
  {
    if a <= b {
      assert b * m == a * m + (b - a) * m;
    }
  }

  lemma QuotientMonotone(bs: nat, x: nat, y: nat)
    requires bs > 0 && x <= y
    ensures x / bs <= y / bs
  {
    AddressFacts(bs, x);
    AddressFacts(bs, y);
    MulMonotone(y / bs + 1, x / bs, bs);
  }

  /** A 16-bit number from its four hexadecimal digits. */
  lemma Nibbles(n: nat)
    requires n < 0x1_0000
    ensures n == ((n / 4096 * 16 + n / 256 % 16) * 16 + n / 16 % 16) * 16 + n % 16
  {
  }

  /** Different values below m are no more than m. */
  lemma {:induction false} DistinctBelow(xs: seq<int>, m: nat)
    requires forall i :: 0 <= i < |xs| ==> 0 <= xs[i] < m
    requires forall i, j :: 0 <= i < j < |xs| ==> xs[i] != xs[j]
    ensures |xs| <= m
    decreases m
  {
    assert xs != [] ==> 0 <= xs[0] < m;
    if m - 1 in xs {
      var k :| 0 <= k < |xs| && xs[k] == m - 1;
      var ys := xs[..k] + xs[k + 1..];
      forall i | 0 <= i < |ys|
        ensures ys[i] == xs[if i < k then i else i + 1] && 0 <= ys[i] < m - 1
      {
        var l := if i < k then i else i + 1;
        assert ys[i] == xs[l] && xs[l] != xs[k];
      }
      forall i, j | 0 <= i < j < |ys|
        ensures ys[i] != ys[j]
      {
        assert xs[if i < k then i else i + 1] != xs[if j < k then j else j + 1];
      }
      DistinctBelow(ys, m - 1);
    } else if m > 0 {
      forall i | 0 <= i < |xs|
        ensures 0 <= xs[i] < m - 1
      {
        assert xs[i] in xs;
      }
      DistinctBelow(xs, m - 1);
    }
  }
}

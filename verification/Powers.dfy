/** Powers of two, and quotients. */
module Powers {

  function Pow2(n: nat): nat {
    if n == 0 then 1 else 2 * Pow2(n - 1)
  }

  lemma {:induction false} Pow2Monotone(i: nat, j: nat)
    requires i <= j
    ensures 1 <= Pow2(i) <= Pow2(j)
    decreases j
  {
    if i < j {
      Pow2Monotone(i, j - 1);
    } else if i > 0 {
      Pow2Monotone(i - 1, i - 1);
    }
  }

  lemma Pow2Values()
    ensures Pow2(0) == 1 && Pow2(1) == 2 && Pow2(2) == 4 && Pow2(3) == 8 && Pow2(4) == 16
    ensures Pow2(5) == 32 && Pow2(6) == 64 && Pow2(7) == 128 && Pow2(8) == 256
  {
    assert Pow2(2) == 4;
    assert Pow2(4) == 16;
    assert Pow2(6) == 64;
  }

  lemma ScaleUpInt(d: int, t: int)
    requires d >= 1 && t >= 0
    ensures d * t >= t
  {
    assert d * t - t == (d - 1) * t;
  }

  lemma NoMultipleBetween(d: int, t: int)
    requires -t < d * t < t
    ensures d == 0
  {
    if d >= 1 {
      ScaleUpInt(d, t);
    } else if d <= -1 {
      ScaleUpInt(-d, t);
    }
  }

  lemma QuotientUnique(x: nat, t: nat, q: nat, r: nat)
    requires x == q * t + r && r < t
    ensures x / t == q && x % t == r
  {
    assert (x / t - q) * t == r - x % t;
    NoMultipleBetween(x / t - q, t);
  }
}

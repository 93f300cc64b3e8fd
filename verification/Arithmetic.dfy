/** The smaller of two numbers, and facts about remainders that the solver does not
    find by itself. */
module Arithmetic {

  function Min(a: nat, b: nat): nat { if a <= b then a else b }

  lemma {:induction false} AddMultiple(y: int, k: int, m: int)
    requires m > 0
    ensures (y + k * m) % m == y % m
    decreases if k < 0 then -k else k
  {
    if k > 0 {
      AddMultiple(y, k - 1, m);
      assert y + k * m == (y + (k - 1) * m) + m;
      AddOnce(y + (k - 1) * m, m);
    } else if k < 0 {
      AddMultiple(y, k + 1, m);
      assert y + (k + 1) * m == (y + k * m) + m;
      AddOnce(y + k * m, m);
    }
  }

  lemma AddOnce(y: int, m: int)
    requires m > 0
    ensures (y + m) % m == y % m
  {
    var q, q' := y / m, (y + m) / m;
    var r, r' := y % m, (y + m) % m;
    assert y == q * m + r && y + m == q' * m + r';
    assert (q' - q - 1) * m == r - r' by {
      assert (q' - q - 1) * m == q' * m - q * m - m;
    }
    SmallMultiple(q' - q - 1, m);
  }

  /** A multiple of `m` strictly between -m and m is zero. */
  lemma SmallMultiple(k: int, m: int)
    requires m > 0 && -m < k * m < m
    ensures k == 0
  {
  }

  lemma AddReduced(y: int, z: int, m: int)
    requires m > 0
    ensures (y % m + z) % m == (y + z) % m
  {
    AddMultiple(y % m + z, y / m, m);
    assert y == y / m * m + y % m;
  }

  /** Multiples of a multiple of `m` do not count modulo `m`. */
  lemma DropMultiple(y: int, k: int, p: int, m: int)
    requires m > 0 && p % m == 0
    ensures (y + k * p) % m == y % m
  {
    AddMultiple(y, k * (p / m), m);
    assert p == p / m * m;
    assert k * (p / m * m) == k * (p / m) * m;
  }

  lemma SmallRemainder(r: int, d: int)
    requires 0 <= r < d
    ensures r % d == r
  {
  }

  /** The remainder is determined by the equation it solves. */
  lemma ModulusUnique(n: int, d: int, q: int, r: int)
    requires 0 <= r < d && n == q * d + r
    ensures n % d == r
  {
    var m := q * d;
    SameRemainder(r, q, d, m);
    SmallRemainder(r, d);
  }

  /** And so is the quotient. */
  lemma QuotientUnique(q: int, d: int, r: int)
    requires 0 <= r < d
    ensures (q * d + r) / d == q
  {
    var n := q * d + r;
    ModulusUnique(n, d, q, r);
    EqualFactors(d, n / d, q);
  }

  lemma EqualFactors(d: int, a: int, b: int)
    requires d > 0 && d * a == d * b
    ensures a == b
  {
    assert d * (a - b) == 0;
  }

  lemma SameRemainder(y: int, k: int, m: int, km: int)
    requires m > 0 && km == k * m
    ensures (km + y) % m == y % m
  {
    AddMultiple(y, k, m);
  }
}

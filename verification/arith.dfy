/** Alignment arithmetic: rounding to multiples of a block size. */
module Arith {

  /** Monotonicity of multiplication by a non-negative factor. */
  lemma MulMono(x: int, y: int, m: nat)
    requires x <= y
    ensures x * m <= y * m
  {
  }

  /** A multiple of m strictly between -m and m is zero. */
  lemma SmallMultiple(k: int, m: int)
    requires 0 < m && -m < k * m < m
    ensures k == 0
  {
    if k >= 1 {
      MulMono(1, k, m);
    } else if k <= -1 {
      MulMono(k, -1, m);
    }
  }

  /** Quotient and remainder are unique. */
  lemma DivUnique(x: nat, m: nat, q: nat, r: nat)
    requires 0 < m && x == q * m + r && r < m
    ensures x / m == q && x % m == r
  {
    var q', r' := x / m, x % m;
    assert x == q' * m + r';
    assert (q - q') * m == r' - r;
    SmallMultiple(q - q', m);
  }

  /** q * m is a multiple of m. */
  lemma MulAligned(q: nat, m: nat)
    requires 0 < m
    ensures (q * m) % m == 0 && (q * m) / m == q
  {
    DivUnique(q * m, m, q, 0);
  }

  /** x rounded down to a multiple of m. */
  function RoundDown(x: nat, m: nat): (r: nat)
    requires 0 < m
    ensures r <= x && r % m == 0 && x - r < m
  {
    MulAligned(x / m, m);
    x / m * m
  }

  /** x rounded up to a multiple of m. */
  function RoundUp(x: nat, m: nat): (r: nat)
    requires 0 < m
    ensures x <= r && r % m == 0 && r - x < m
  {
    RoundDown(x + m - 1, m)
  }

  /** Distinct multiples of m are at least m apart. */
  lemma MultiplesApart(m: nat, a: nat, b: nat)
    requires 0 < m && a % m == 0 && b % m == 0 && b < a
    ensures b + m <= a
  {
    var p, q := a / m, b / m;
    assert a == p * m && b == q * m;
    if p <= q {
      MulMono(p, q, m);
    }
    MulMono(q + 1, p, m);
  }

  /** Of two multiples of m at most x, the one within m of x is the larger. */
  lemma AlignedBelow(m: nat, a: nat, b: nat, x: nat)
    requires 0 < m && a % m == 0 && b % m == 0 && a <= x && b <= x && x - b < m
    ensures a <= b
  {
    if a > b {
      MultiplesApart(m, a, b);
    }
  }

  /** Of two multiples of m at least x, the one within m of x is the smaller. */
  lemma AlignedAbove(m: nat, a: nat, b: nat, x: nat)
    requires 0 < m && a % m == 0 && b % m == 0 && x <= a && x <= b && b - x < m
    ensures b <= a
  {
    if b > a {
      MultiplesApart(m, b, a);
    }
  }

  /** Adding the distance to the next boundary to an unaligned x rounds it up. */
  lemma NextBoundary(x: nat, m: nat)
    requires 0 < m && x % m != 0
    ensures x + (m - x % m) == RoundUp(x, m)
  {
    var q := x / m;
    assert x == q * m + x % m;
    DivUnique(x + m - 1, m, q + 1, x % m - 1);
  }

  /** Stepping from an aligned address below an aligned bound by m stays within the bound. */
  lemma StepInside(m: nat, a: nat, end: nat)
    requires 0 < m && a % m == 0 && end % m == 0 && a < end
    ensures a + m <= end
  {
    MultiplesApart(m, end, a);
  }

  /** a + m is aligned when a is. */
  lemma AddAligned(a: nat, m: nat)
    requires 0 < m && a % m == 0
    ensures (a + m) % m == 0
  {
    DivUnique(a + m, m, a / m + 1, 0);
  }

  /** Subtracting the remainder rounds down. */
  lemma DownIsRoundDown(x: nat, m: nat)
    requires 0 < m
    ensures x - x % m == RoundDown(x, m)
  {
  }

  /** The distance from x up to the next multiple of m (zero when x is one) completes the rounding up. */
  lemma PadToBoundary(x: nat, m: nat, pad: nat)
    requires 0 < m && pad == (if x % m == 0 then 0 else m - x % m)
    ensures x + pad == RoundUp(x, m) && pad < m
  {
    if x % m == 0 {
      AlignedRoundUp(x, m);
    } else {
      NextBoundary(x, m);
    }
  }

  /** An aligned value rounds up to itself. */
  lemma AlignedRoundUp(x: nat, m: nat)
    requires 0 < m && x % m == 0
    ensures RoundUp(x, m) == x
  {
    DivUnique(x + m - 1, m, x / m, m - 1);
  }

  /** An aligned value rounds down to itself. */
  lemma AlignedRoundDown(x: nat, m: nat)
    requires 0 < m && x % m == 0
    ensures RoundDown(x, m) == x
  {
    DivUnique(x, m, x / m, 0);
  }

  /** Integer division of a natural number by a positive one. */
  function Div(x: nat, m: nat): (q: nat)
    requires 0 < m
    ensures q * m <= x < q * m + m
  {
    x / m
  }

  /** The difference of two multiples of m is a multiple of m. */
  lemma DiffAligned(x: nat, y: nat, m: nat)
    requires 0 < m && y <= x && x % m == 0 && y % m == 0
    ensures (x - y) % m == 0
  {
    var p, q := x / m, y / m;
    assert x == p * m && y == q * m;
    if p < q {
      MulMono(p + 1, q, m);
    }
    assert x - y == (p - q) * m;
    MulAligned(p - q, m);
  }

  /** The sum of two multiples of m is a multiple of m. */
  lemma SumAligned(x: nat, y: nat, m: nat)
    requires 0 < m && x % m == 0 && y % m == 0
    ensures (x + y) % m == 0
  {
    var p, q := x / m, y / m;
    assert x + y == (p + q) * m;
    MulAligned(p + q, m);
  }
}

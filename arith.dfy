/** Small facts about multiplication and division on the natural numbers
    that the time and row arithmetic below relies on. */
module Arith {
  lemma MulDivCancel(a: int, b: int)
    requires b > 0
    ensures (a * b) / b == a && (a * b) % b == 0
  {
    var q, r := (a * b) / b, (a * b) % b;
    assert a * b == q * b + r;
    assert (a - q) * b == r;
    if a - q >= 1 {
      MulMonotone(1, a - q, b);
    } else if a - q <= -1 {
      MulMonotone(a - q, -1, b);
    }
  }

  lemma MulMonotone(a: int, c: int, b: int)
    requires a <= c && b >= 0
    ensures a * b <= c * b
  {
    assert c * b - a * b == (c - a) * b;
  }

  lemma MulComm(a: int, b: int)
    ensures a * b == b * a
  {
  }

  /** Multiplying by a positive number is injective. */
  lemma MulCancel(a: int, c: int, d: int)
    requires d > 0
    ensures a * d == c * d <==> a == c
  {
    if a < c {
      MulStrictMonotone(a, c, d);
    } else if c < a {
      MulStrictMonotone(c, a, d);
    }
  }

  /** One more row of width d. */
  lemma MulSucc(k: int, d: int)
    ensures (k + 1) * d == k * d + d
  {
  }

  /** One more block of a: a * n is a * (n - 1) plus a. */
  lemma MulPred(a: int, n: int)
    ensures a * n == a * (n - 1) + a
  {
  }

  /** Row idx of width p ends where row idx + 1 starts, for the values
      (width p) and the events (width p + 1). */
  lemma RowEnds(p: int, idx: int)
    ensures (idx + 1) * p == p * idx + p
    ensures (idx + 1) * (p + 1) == (p + 1) * idx + (p + 1)
  {
    MulComm(idx + 1, p);
    MulComm(idx + 1, p + 1);
  }

  lemma MulStrictMonotone(a: int, c: int, b: int)
    requires a < c && b > 0
    ensures a * b < c * b
  {
    assert c * b - a * b == (c - a) * b;
  }

  /** k * d <= x exactly when k <= x / d (floor division). */
  lemma FloorDivBound(k: int, x: int, d: int)
    requires d > 0
    ensures k * d <= x <==> k <= x / d
  {
    var q := x / d;
    assert x == q * d + x % d;
    if k <= q {
      MulMonotone(k, q, d);
    } else {
      MulMonotone(q + 1, k, d);
    }
  }

  /** x <= k * d exactly when (x + d - 1) / d <= k (ceiling division). */
  lemma CeilDivBound(k: int, x: int, d: int)
    requires d > 0
    ensures x <= k * d <==> (x + d - 1) / d <= k
  {
    var c := (x + d - 1) / d;
    assert c * d <= x + d - 1 < (c + 1) * d;
    if x <= k * d {
      if k < c {
        MulMonotone(k, c - 1, d);
      }
    } else {
      if c <= k {
        MulMonotone(c, k, d);
      }
    }
  }
}

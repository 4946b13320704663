/** Integer facts shared by the two models: powers of two and the
    uniqueness of Euclidean division, which stand in for the shifts and
    masks of the C++ code. */
module Arith {

  /** 2^n, the value of `1 << n`. */
  function Pow2(n: nat): (r: nat)
    ensures r >= 1
  {
    if n == 0 then 1 else 2 * Pow2(n - 1)
  }

  lemma {:induction false} Pow2Add(a: nat, b: nat)
    ensures Pow2(a + b) == Pow2(a) * Pow2(b)
  {
    if a > 0 {
      Pow2Add(a - 1, b);
      assert Pow2(a + b) == 2 * Pow2(a - 1 + b);
    }
  }

  lemma MulAtLeast(k: int, d: int)
    requires k >= 1 && d > 0
    ensures k * d >= d
  {
    var j := k - 1;
    assert k * d == j * d + d;
    assert j * d >= 0;
  }

  /** Any quotient/remainder pair with the remainder in range is the one Dafny computes. */
  lemma DivModUnique(a: int, d: int, q: int, r: int)
    requires d > 0 && 0 <= r < d && a == q * d + r
    ensures a / d == q && a % d == r
  {
    var q', r' := a / d, a % d;
    assert a == q' * d + r';
    if q' < q {
      assert (q - q') * d == q * d - q' * d;
      MulAtLeast(q - q', d);
    } else if q' > q {
      assert (q' - q) * d == q' * d - q * d;
      MulAtLeast(q' - q, d);
    }
  }

  /** f * d + i lies in [0, n * d) when f < n and i < d. */
  lemma SlotBounds(f: int, i: int, n: int, d: int)
    requires 0 <= f < n && 0 <= i < d
    ensures 0 <= f * d + i < n * d
  {
    assert f * d >= 0;
    assert (n - f) * d == n * d - f * d;
    MulAtLeast(n - f, d);
  }

  /** Dividing twice is dividing by the product. */
  lemma DivDiv(a: nat, b: nat, c: nat)
    requires b > 0 && c > 0
    ensures a / b / c == a / (b * c)
  {
    var q := a / b / c;
    var r := (a / b) % c;
    assert a / b == q * c + r;
    assert a == (a / b) * b + a % b;
    assert a == q * (b * c) + (r * b + a % b) by {
      assert (q * c + r) * b == q * (b * c) + r * b;
    }
    assert r * b + a % b < b * c by {
      assert r <= c - 1;
      assert r * b <= (c - 1) * b;
      assert (c - 1) * b == b * c - b;
    }
    DivModUnique(a, b * c, q, r * b + a % b);
  }

  lemma MulMono(a: int, b: int, c: int)
    requires 0 <= a <= b && c >= 0
    ensures a * c <= b * c
  {
    assert b * c - a * c == (b - a) * c;
  }
}

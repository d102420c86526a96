/** Machine-word arithmetic on naturals: bitwise `&`, and the division facts the lane arguments need.
  *
  * A word is the natural number it holds. `And` is the bitwise conjunction written out bit by bit; a
  * shift by `8 * k` is a multiplication or a division by `Pow256(k)`; wrapping is an explicit `%`.
  */
module Words {

  function And(x: nat, y: nat): nat
    decreases x
  {
    if x == 0 || y == 0 then 0
    else 2 * And(x / 2, y / 2) + (if x % 2 == 1 && y % 2 == 1 then 1 else 0)
  }

  lemma {:induction false} AndBound(x: nat, y: nat)
    ensures And(x, y) <= x && And(x, y) <= y
  {
    if x > 0 && y > 0 {
      AndBound(x / 2, y / 2);
    }
  }

  function Pow2(n: nat): (r: nat)
    ensures r >= 1
  {
    if n == 0 then 1 else 2 * Pow2(n - 1)
  }

  lemma MulSign(d: int, q: int)
    requires d > 0
    ensures q >= 1 ==> d * q >= d
    ensures q <= -1 ==> d * q <= -d
  {
  }

  /** A quotient and a remainder are determined by the equation they satisfy. */
  lemma DivModUnique(x: int, d: int, q: int, r: int)
    requires 0 <= r < d
    requires x == d * q + r
    ensures x / d == q && x % d == r
  {
    assert d * (x / d - q) == r - x % d;
    MulSign(d, x / d - q);
  }

  /** Two numbers less than `d` apart never share a residue modulo `d`. */
  lemma ResiduesDiffer(a: int, b: int, d: int)
    requires d > 0
    requires a < b < a + d
    ensures a % d != b % d
  {
    assert b - a == d * (b / d - a / d) + (b % d - a % d);
    MulSign(d, b / d - a / d);
  }

  /** Going one lap of `d` further lands on the same residue. */
  lemma ResidueOfLap(a: int, d: int)
    requires d > 0
    ensures (a + d) % d == a % d
  {
    DivModUnique(a + d, d, a / d + 1, a % d);
  }

  lemma HalveResidue(x: nat, h: nat)
    requires h >= 1
    ensures x % (2 * h) == 2 * ((x / 2) % h) + x % 2
  {
    var q, r := (x / 2) / h, (x / 2) % h;
    assert x / 2 == h * q + r;
    assert 2 * (h * q) == (2 * h) * q;
    DivModUnique(x, 2 * h, q, 2 * r + x % 2);
  }

  lemma LowMaskStep(x: nat, h: nat, m: nat)
    requires h >= 1 && m == 2 * h - 1
    ensures And(x, m) == 2 * And(x / 2, h - 1) + x % 2
  {
    assert m / 2 == h - 1 && m % 2 == 1;
    AndStep(x, m);
  }

  /** Masking with `2^k - 1` keeps exactly the low `k` bits. */
  lemma {:induction false} AndLowMask(x: nat, k: nat)
    ensures And(x, Pow2(k) - 1) == x % Pow2(k)
    decreases k
  {
    if k == 0 {
      assert And(x, 0) == 0;
    } else {
      AndLowMask(x / 2, k - 1);
      LowMaskStep(x, Pow2(k - 1), Pow2(k) - 1);
      HalveResidue(x, Pow2(k - 1));
    }
  }

  lemma AndFull(b: nat, k: nat, m: nat)
    requires m == Pow2(k) - 1 && b <= m
    ensures And(b, m) == b
  {
    AndLowMask(b, k);
    DivModUnique(b, Pow2(k), 0, b);
  }

  /** `x << k`, one bit at a time. */
  function Shl(x: nat, k: nat): nat {
    if k == 0 then x else 2 * Shl(x, k - 1)
  }

  lemma {:induction false} ShlIsProduct(x: nat, k: nat)
    ensures Shl(x, k) == Pow2(k) * x
  {
    if k > 0 {
      ShlIsProduct(x, k - 1);
      DoubledProduct(Pow2(k - 1), x);
    }
  }

  lemma DoubledProduct(h: nat, x: nat)
    ensures (2 * h) * x == 2 * (h * x)
  {
  }

  /** One more bit below what has been split. */
  lemma SplitBelow(a: nat, b: nat, p: nat, q: nat, r: nat, x: nat, y: nat)
    requires And(a / 2 + p, b / 2 + q) == And(a / 2, b / 2) + r && x == 2 * p && y == 2 * q
    ensures And(a + x, b + y) == And(a, b) + 2 * r
  {
    AndHalves(a, b, p, q);
  }

  lemma HalfFits(a: nat, k: nat)
    requires k > 0 && a < Pow2(k)
    ensures a / 2 < Pow2(k - 1)
  {
  }

  lemma {:induction false} AndSplitShl(a: nat, b: nat, x: nat, y: nat, k: nat)
    requires a < Pow2(k) && b < Pow2(k)
    ensures And(a + Shl(x, k), b + Shl(y, k)) == And(a, b) + Shl(And(x, y), k)
    decreases k
  {
    if k > 0 {
      var p, q, r := Shl(x, k - 1), Shl(y, k - 1), Shl(And(x, y), k - 1);
      HalfFits(a, k);
      HalfFits(b, k);
      assert And(a / 2 + p, b / 2 + q) == And(a / 2, b / 2) + r by { AndSplitShl(a / 2, b / 2, x, y, k - 1); }
      SplitBelow(a, b, p, q, r, Shl(x, k), Shl(y, k));
    }
  }

  /** `&` works on a low field and the rest of the word independently. */
  lemma AndSplit(a: nat, b: nat, x: nat, y: nat, k: nat)
    requires a < Pow2(k) && b < Pow2(k)
    ensures And(a + Pow2(k) * x, b + Pow2(k) * y) == And(a, b) + Pow2(k) * And(x, y)
  {
    AndSplitShl(a, b, x, y, k);
    ShlIsProduct(x, k);
    ShlIsProduct(y, k);
    ShlIsProduct(And(x, y), k);
  }

  lemma AndHalves(a: nat, b: nat, p: nat, q: nat)
    ensures And(a + 2 * p, b + 2 * q) == 2 * And(a / 2 + p, b / 2 + q) + (And(a, b) - 2 * And(a / 2, b / 2))
  {
    AndStep(a + 2 * p, b + 2 * q);
    AndStep(a, b);
    assert (a + 2 * p) / 2 == a / 2 + p && (b + 2 * q) / 2 == b / 2 + q;
  }

  lemma AndStep(x: nat, y: nat)
    ensures And(x, y) == 2 * And(x / 2, y / 2) + (if x % 2 == 1 && y % 2 == 1 then 1 else 0)
  {
  }

  /** A power of two is a positive number with no bit in common with its predecessor. */
  predicate IsPowerOfTwo(n: nat) {
    n > 0 && And(n, n - 1) == 0
  }

  lemma {:induction false} AndSelf(x: nat)
    ensures And(x, x) == x
  {
    if x > 0 {
      AndSelf(x / 2);
    }
  }

  lemma {:induction false} PowerOfTwoExponent(n: nat) returns (k: nat)
    requires IsPowerOfTwo(n)
    ensures n == Pow2(k)
  {
    AndStep(n, n - 1);
    if n % 2 == 1 {
      AndSelf(n / 2);
      k := 0;
    } else {
      assert (n - 1) / 2 == n / 2 - 1;
      k := PowerOfTwoExponent(n / 2);
      k := k + 1;
    }
  }

  /** For a power of two the mask `d - 1` and the division agree on the remainder. */
  lemma MaskIsModulo(x: nat, d: nat)
    requires IsPowerOfTwo(d)
    ensures And(x, d - 1) == x % d
  {
    var k := PowerOfTwoExponent(d);
    AndLowMask(x, k);
  }
}

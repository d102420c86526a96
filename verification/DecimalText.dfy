/** Decimal text and the exact rational it denotes. */
module DecimalText {
  import opened Words
  import opened Bytes

  /** Digits with at most one point among them. */
  datatype Number = Number(whole: seq<byte>, fraction: seq<byte>) {
    predicate Valid() {
      AllDigits(whole) && AllDigits(fraction) && whole + fraction != []
    }

    /** The digits without the point: the number is this over `10^|fraction|`. */
    function Mantissa(): nat
      requires Valid()
    {
      DigitsValue(whole + fraction)
    }
  }

  function SplitAtPoint(body: seq<byte>): Number {
    var i := FirstIndex(body, POINT);
    Number(body[..i], if i < |body| then body[i + 1..] else [])
  }

  /** `v` units of `10^-decimals` are exactly the number. */
  predicate Denotes(n: Number, v: int, decimals: nat)
    requires n.Valid()
  {
    v * Pow10(|n.fraction|) == n.Mantissa() * Pow10(decimals)
  }

  predicate AllZero(s: seq<byte>) {
    forall i :: 0 <= i < |s| ==> s[i] == ZERO
  }

  /** The fraction digits the scale keeps, and those past it. */
  function Kept(n: Number, decimals: nat): seq<byte> {
    if |n.fraction| <= decimals then n.fraction else n.fraction[..decimals]
  }

  function Dropped(n: Number, decimals: nat): seq<byte> {
    if |n.fraction| <= decimals then [] else n.fraction[decimals..]
  }

  /** The number in units of `10^-decimals`, digits past the scale left off. */
  function Scaled(n: Number, decimals: nat): nat
    requires n.Valid()
  {
    DigitsValue(n.whole + Kept(n, decimals)) * Pow10(decimals - |Kept(n, decimals)|)
  }

  lemma {:induction false} ZeroValueIff(s: seq<byte>)
    requires AllDigits(s)
    ensures DigitsValue(s) == 0 <==> AllZero(s)
  {
    if s != [] {
      ZeroValueIff(s[..|s| - 1]);
    }
  }

  lemma Cancel(a: int, b: int, p: nat)
    requires p >= 1 && a * p == b * p
    ensures a == b
  {
    MulSign(p, a - b);
    assert p * (a - b) == 0;
  }

  lemma Rearranged(a: nat, p: nat, q: nat)
    ensures a * (q * p) == (a * q) * p
  {
  }

  lemma DenotesShort(n: Number, v: int, decimals: nat)
    requires n.Valid() && |n.fraction| <= decimals
    ensures Denotes(n, v, decimals) <==> v == Scaled(n, decimals)
  {
    var f := |n.fraction|;
    Pow10Sum(decimals - f, f);
    Rearranged(n.Mantissa(), Pow10(f), Pow10(decimals - f));
    if Denotes(n, v, decimals) {
      Cancel(v, Scaled(n, decimals), Pow10(f));
    }
  }

  lemma LongMantissa(n: Number, decimals: nat)
    requires n.Valid() && |n.fraction| > decimals
    ensures AllDigits(n.whole + Kept(n, decimals)) && AllDigits(Dropped(n, decimals))
    ensures n.Mantissa() == Scaled(n, decimals) * Pow10(|Dropped(n, decimals)|) + DigitsValue(Dropped(n, decimals))
    ensures DigitsValue(Dropped(n, decimals)) < Pow10(|Dropped(n, decimals)|)
  {
    var kept, dropped := n.whole + Kept(n, decimals), Dropped(n, decimals);
    assert n.whole + n.fraction == kept + dropped;
    DigitsValueConcat(kept, dropped);
    DigitsValueBound(dropped);
    assert Pow10(0) == 1;
  }

  lemma Shared(v: int, m: nat, p: nat, q: nat)
    requires p >= 1 && q >= 1
    ensures v * (p * q) == m * p <==> v * q == m
  {
    assert v * (p * q) == (v * q) * p;
    if v * (p * q) == m * p {
      Cancel(v * q, m, p);
    }
  }

  lemma QuotientIs(v: int, a: nat, r: nat, q: nat)
    requires r < q
    ensures v * q == a * q + r <==> v == a && r == 0
  {
    if v * q == a * q + r {
      assert q * (v - a) == r;
      MulSign(q, v - a);
    }
  }

  lemma DenotesLong(n: Number, v: int, decimals: nat)
    requires n.Valid() && |n.fraction| > decimals
    ensures Denotes(n, v, decimals) <==> v == Scaled(n, decimals) && AllZero(Dropped(n, decimals))
  {
    var dropped := Dropped(n, decimals);
    Pow10Sum(decimals, |dropped|);
    LongMantissa(n, decimals);
    ZeroValueIff(dropped);
    Shared(v, n.Mantissa(), Pow10(decimals), Pow10(|dropped|));
    QuotientIs(v, Scaled(n, decimals), DigitsValue(dropped), Pow10(|dropped|));
  }

  /** A number is a whole count of units exactly when no digit that is not zero lies past the scale, and then
    * the count is the digits within it. */
  lemma DenotesIff(n: Number, v: int, decimals: nat)
    requires n.Valid()
    ensures Denotes(n, v, decimals) <==> v == Scaled(n, decimals) && AllZero(Dropped(n, decimals))
  {
    if |n.fraction| <= decimals {
      DenotesShort(n, v, decimals);
    } else {
      DenotesLong(n, v, decimals);
    }
  }
}

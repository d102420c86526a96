/** Folding the digit lanes of a word in logarithmic steps.
  *
  * One step takes `w`-bit lanes `x0 x1 x2 x3 ...` to lanes twice as wide holding `k * x0 + x1`,
  * `k * x2 + x3`, ... with two masks, a shift and a multiplication, whatever the number of lanes.
  */
module SwarFold {
  import opened Words

  /** The word made of `w`-bit lanes, the first lane lowest. */
  function Lanes(xs: seq<nat>, w: nat): nat {
    if xs == [] then 0 else xs[0] + Shl(Lanes(xs[1..], w), w)
  }

  lemma {:induction false} ShlSum(x: nat, y: nat, w: nat)
    ensures Shl(x, w) + Shl(y, w) == Shl(x + y, w)
  {
    if w > 0 {
      ShlSum(x, y, w - 1);
    }
  }

  lemma {:induction false} ShlScale(k: nat, x: nat, w: nat)
    ensures k * x >= 0 && k * Shl(x, w) == Shl(k * x, w)
  {
    if w > 0 {
      ShlScale(k, x, w - 1);
      assert k * (2 * Shl(x, w - 1)) == 2 * (k * Shl(x, w - 1));
    }
  }

  lemma {:induction false} ShlTwice(x: nat, v: nat, w: nat)
    ensures Shl(Shl(x, v), w) == Shl(x, v + w)
  {
    if w > 0 {
      ShlTwice(x, v, w - 1);
    }
  }

  /** `n` pairs of `w`-bit lanes with `m` in the first lane of each pair. */
  function MaskEven(n: nat, w: nat, m: nat): nat {
    if n == 0 then 0 else m + Shl(Shl(MaskEven(n - 1, w, m), w), w)
  }

  function MaskOdd(n: nat, w: nat, m: nat): nat {
    Shl(MaskEven(n, w, m), w)
  }

  predicate Fit(xs: seq<nat>, w: nat) {
    |xs| % 2 == 0 && forall i :: 0 <= i < |xs| ==> xs[i] < Pow2(w)
  }

  /** The masked first lanes, the masked second lanes, and both folded with weight `k`. */
  function Evens(xs: seq<nat>, w: nat, m: nat): nat
    requires |xs| % 2 == 0
  {
    if xs == [] then 0 else And(xs[0], m) + Shl(Shl(Evens(xs[2..], w, m), w), w)
  }

  function Odds(xs: seq<nat>, w: nat, m: nat): nat
    requires |xs| % 2 == 0
  {
    if xs == [] then 0 else And(xs[1], m) + Shl(Shl(Odds(xs[2..], w, m), w), w)
  }

  function Pairs(xs: seq<nat>, m: nat, k: nat): (ps: seq<nat>)
    requires |xs| % 2 == 0
    ensures |ps| == |xs| / 2
  {
    if xs == [] then [] else [k * And(xs[0], m) + And(xs[1], m)] + Pairs(xs[2..], m, k)
  }

  lemma MaskFirst(x0: nat, m0: nat, a: nat, m: nat, masked: nat, w: nat)
    requires x0 < Pow2(w) && m0 < Pow2(w) && masked == And(a, m)
    ensures And(x0 + Shl(a, w), m0 + Shl(m, w)) == And(x0, m0) + Shl(masked, w)
  {
    AndSplitShl(x0, m0, a, m, w);
  }

  lemma MaskPair(x0: nat, x1: nat, m0: nat, m1: nat, rest: nat, mask: nat, w: nat)
    requires x0 < Pow2(w) && x1 < Pow2(w) && m0 < Pow2(w) && m1 < Pow2(w)
    ensures And(x0 + Shl(x1 + Shl(rest, w), w), m0 + Shl(m1 + Shl(mask, w), w)) ==
            And(x0, m0) + Shl(And(x1, m1) + Shl(And(rest, mask), w), w)
  {
    AndSplitShl(x1, m1, rest, mask, w);
    MaskFirst(x0, m0, x1 + Shl(rest, w), m1 + Shl(mask, w), And(x1, m1) + Shl(And(rest, mask), w), w);
  }

  lemma MaskSecond(x0: nat, x1: nat, m: nat, rest: nat, mask: nat, w: nat)
    requires x0 < Pow2(w) && x1 < Pow2(w) && m < Pow2(w)
    ensures And(x0 + Shl(x1 + Shl(rest, w), w), Shl(m + Shl(mask, w), w)) ==
              Shl(And(x1, m) + Shl(And(rest, mask), w), w)
  {
    MaskPair(x0, x1, 0, m, rest, mask, w);
    AndZero(x0);
  }

  lemma TwoLanes(xs: seq<nat>, w: nat)
    requires |xs| >= 2
    ensures Lanes(xs, w) == xs[0] + Shl(xs[1] + Shl(Lanes(xs[2..], w), w), w)
  {
    assert xs[1..][1..] == xs[2..];
  }

  lemma AndZero(x: nat)
    ensures And(x, 0) == 0
  {
  }

  lemma {:induction false} MaskedEvens(xs: seq<nat>, w: nat, m: nat)
    requires Fit(xs, w) && m < Pow2(w)
    ensures And(Lanes(xs, w), MaskEven(|xs| / 2, w, m)) == Evens(xs, w, m)
  {
    if xs != [] {
      var rest, n := Lanes(xs[2..], w), |xs| / 2 - 1;
      MaskedEvens(xs[2..], w, m);
      TwoLanes(xs, w);
      MaskPair(xs[0], xs[1], m, 0, rest, MaskEven(n, w, m), w);
      AndZero(xs[1]);
    }
  }

  lemma {:induction false} MaskedOdds(xs: seq<nat>, w: nat, m: nat)
    requires Fit(xs, w) && m < Pow2(w)
    ensures And(Lanes(xs, w), MaskOdd(|xs| / 2, w, m)) == Shl(Odds(xs, w, m), w)
  {
    if xs == [] {
      ShlIsProduct(0, w);
    } else {
      MaskedOdds(xs[2..], w, m);
      TwoLanes(xs, w);
      MaskSecond(xs[0], xs[1], m, Lanes(xs[2..], w), MaskOdd(|xs| / 2 - 1, w, m), w);
    }
  }

  lemma WeighPair(e: nat, o: nat, evens: nat, odds: nat, k: nat, w: nat)
    ensures evens * k >= 0
    ensures (o + Shl(Shl(odds, w), w)) + (e + Shl(Shl(evens, w), w)) * k == (k * e + o) + Shl(odds + evens * k, 2 * w)
  {
    ShlTwice(odds, w, w);
    ShlTwice(evens, w, w);
    ShlScale(k, evens, 2 * w);
    ShlSum(odds, k * evens, 2 * w);
    assert (e + Shl(evens, 2 * w)) * k == k * e + k * Shl(evens, 2 * w);
  }

  lemma {:induction false} OddsPlusWeightedEvens(xs: seq<nat>, w: nat, m: nat, k: nat)
    requires |xs| % 2 == 0
    ensures Odds(xs, w, m) + Evens(xs, w, m) * k == Lanes(Pairs(xs, m, k), 2 * w)
  {
    if xs != [] {
      OddsPlusWeightedEvens(xs[2..], w, m, k);
      WeighPair(And(xs[0], m), And(xs[1], m), Evens(xs[2..], w, m), Odds(xs[2..], w, m), k, w);
      assert Pairs(xs, m, k)[1..] == Pairs(xs[2..], m, k);
    }
  }

  /** One step: mask the second lanes and shift them down, mask the first lanes and weigh them, add. */
  lemma FoldStep(xs: seq<nat>, w: nat, m: nat, k: nat)
    requires Fit(xs, w) && m < Pow2(w)
    ensures And(Lanes(xs, w), MaskOdd(|xs| / 2, w, m)) / Pow2(w) + And(Lanes(xs, w), MaskEven(|xs| / 2, w, m)) * k ==
            Lanes(Pairs(xs, m, k), 2 * w)
  {
    MaskedEvens(xs, w, m);
    MaskedOdds(xs, w, m);
    OddsPlusWeightedEvens(xs, w, m, k);
    ShlIsProduct(Odds(xs, w, m), w);
    DivModUnique(Pow2(w) * Odds(xs, w, m), Pow2(w), Odds(xs, w, m), 0);
  }

  /** The same with the masks and the shift as they are written. */
  lemma FoldStepWith(xs: seq<nat>, w: nat, m: nat, k: nat, odd: nat, even: nat, lane: nat)
    requires Fit(xs, w) && m < Pow2(w)
    requires odd == MaskOdd(|xs| / 2, w, m) && even == MaskEven(|xs| / 2, w, m) && lane == Pow2(w)
    ensures And(Lanes(xs, w), odd) / lane + And(Lanes(xs, w), even) * k == Lanes(Pairs(xs, m, k), 2 * w)
  {
    FoldStep(xs, w, m, k);
  }
}

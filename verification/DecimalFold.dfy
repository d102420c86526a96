/** Packed ASCII digits to binary, in as many steps as the word has halvings. */
module DecimalFold {
  import opened Words
  import opened Bytes
  import opened SwarLanes
  import opened SwarFold

  /** `two_to_u16_decimal`. */
  function TwoToU16(chunk: nat): nat {
    And(chunk, 0x0f00) / 0x100 + And(chunk, 0x000f) * 10
  }

  /** `four_to_u32`. */
  function FourToU32(chunk: nat): nat {
    var a := And(chunk, 0x0f000f00) / 0x100 + And(chunk, 0x000f000f) * 10;
    And(a, 0x00ff0000) / 0x1_0000 + And(a, 0x000000ff) * 100
  }

  /** `eight_to_u64`. */
  function EightToU64(chunk: nat): nat {
    var a := And(chunk, 0x0f000f000f000f00) / 0x100 + And(chunk, 0x000f000f000f000f) * 10;
    var b := And(a, 0x00ff000000ff0000) / 0x1_0000 + And(a, 0x000000ff000000ff) * 100;
    And(b, 0x0000ffff00000000) / 0x1_0000_0000 + And(b, 0x000000000000ffff) * 10000
  }

  /** `sixteen_to_u128`. */
  function SixteenToU128(chunk: nat): nat {
    var a := And(chunk, 0x0f000f000f000f000f000f000f000f00) / 0x100 +
      And(chunk, 0x000f000f000f000f000f000f000f000f) * 10;
    var b := And(a, 0x00ff000000ff000000ff000000ff0000) / 0x1_0000 + And(a, 0x000000ff000000ff000000ff000000ff) * 100;
    var c := And(b, 0x0000ffff000000000000ffff00000000) / 0x1_0000_0000 +
      And(b, 0x000000000000ffff000000000000ffff) * 10000;
    And(c, 0x00000000ffffffff0000000000000000) / 0x1_0000_0000_0000_0000 +
      And(c, 0x000000000000000000000000ffffffff) * 100_000_000
  }

  // ------------------------------------------------------------------------------------------------
  // The value a digit loop computes
  // ------------------------------------------------------------------------------------------------

  /** `acc` followed by the digits `xs` in radix `r`, taken one by one. */
  function Horner(acc: nat, xs: seq<nat>, r: nat): nat
    decreases xs
  {
    if xs == [] then acc else Horner(acc * r + xs[0], xs[1..], r)
  }

  function Nibbles(s: seq<byte>): (xs: seq<nat>)
    ensures |xs| == |s| && forall i :: 0 <= i < |s| ==> xs[i] == And(s[i], 0x0f)
  {
    seq(|s|, i requires 0 <= i < |s| => And(s[i], 0x0f))
  }

  /** The decimal value of the low nibbles: the value of the text when every byte is a digit. */
  function Loose(s: seq<byte>): nat {
    Horner(0, Nibbles(s), 10)
  }

  lemma {:induction false} HornerConcat(acc: nat, a: seq<nat>, b: seq<nat>, r: nat)
    ensures Horner(acc, a + b, r) == Horner(Horner(acc, a, r), b, r)
    decreases a
  {
    if a == [] {
      assert a + b == b;
    } else {
      assert (a + b)[1..] == a[1..] + b;
      HornerConcat(acc * r + a[0], a[1..], b, r);
    }
  }

  lemma {:induction false} HornerTen(acc: nat, xs: seq<nat>)
    ensures Horner(acc, xs, 10) == acc * Pow10(|xs|) + Horner(0, xs, 10)
    decreases xs
  {
    if xs != [] {
      HornerTen(acc * 10 + xs[0], xs[1..]);
      HornerTen(0 * 10 + xs[0], xs[1..]);
      assert (acc * 10 + xs[0]) * Pow10(|xs| - 1) == acc * Pow10(|xs|) + xs[0] * Pow10(|xs| - 1);
    }
  }

  lemma LooseConcat(a: seq<byte>, b: seq<byte>)
    ensures Loose(a + b) == Loose(a) * Pow10(|b|) + Loose(b)
  {
    assert Nibbles(a + b) == Nibbles(a) + Nibbles(b);
    HornerConcat(0, Nibbles(a), Nibbles(b), 10);
    HornerTen(Loose(a), Nibbles(b));
  }

  lemma NibbleOfDigit(b: byte)
    ensures And(b, 0x0f) == b % 16
    ensures IsDigit(b) ==> And(b, 0x0f) == b - ZERO
  {
    AndLowMask(b, 4);
    Pow2Of8();
  }

  lemma LooseOne(b: byte)
    ensures Loose([b]) == And(b, 0x0f)
  {
    assert Nibbles([b])[1..] == [];
    assert Horner(And(b, 0x0f), Nibbles([b])[1..], 10) == And(b, 0x0f);
  }

  lemma {:induction false} LooseIsValue(s: seq<byte>)
    requires AllDigits(s)
    ensures Loose(s) == DigitsValue(s)
  {
    if s != [] {
      var init, last := s[..|s| - 1], s[|s| - 1];
      LooseIsValue(init);
      assert s == init + [last];
      LooseConcat(init, [last]);
      LooseOne(last);
      NibbleOfDigit(last);
      assert Pow10(1) == 10;
    }
  }

  // ------------------------------------------------------------------------------------------------
  // What the folds compute
  // ------------------------------------------------------------------------------------------------

  lemma {:induction false} LeWordIsLanes(s: seq<byte>)
    ensures LeWord(s) == Lanes(s, 8)
  {
    if s != [] {
      LeWordIsLanes(s[1..]);
      ShlIsProduct(Lanes(s[1..], 8), 8);
      Pow2Of8();
    }
  }

  /** The mask `m` leaves every lane alone. */
  predicate Kept(xs: seq<nat>, m: nat) {
    forall i :: 0 <= i < |xs| ==> And(xs[i], m) == xs[i]
  }

  predicate Narrow(xs: seq<nat>, bound: nat) {
    forall i :: 0 <= i < |xs| ==> xs[i] <= bound
  }

  lemma NarrowIsKept(xs: seq<nat>, bound: nat, j: nat)
    requires Narrow(xs, bound) && bound < Pow2(j)
    ensures Kept(xs, Pow2(j) - 1)
  {
    forall i | 0 <= i < |xs| ensures And(xs[i], Pow2(j) - 1) == xs[i] {
      AndLowMask(xs[i], j);
      DivModUnique(xs[i], Pow2(j), 0, xs[i]);
    }
  }

  lemma HornerStep(acc: nat, x0: nat, x1: nat, k: nat)
    ensures acc * (k * k) + (k * x0 + x1) == (acc * k + x0) * k + x1
  {
  }

  lemma {:induction false} PairsKeepValue(acc: nat, xs: seq<nat>, m: nat, k: nat)
    requires |xs| % 2 == 0 && Kept(xs, m)
    ensures Horner(acc, Pairs(xs, m, k), k * k) == Horner(acc, xs, k)
    decreases xs
  {
    if xs != [] {
      PairsKeepValue(acc * (k * k) + (k * xs[0] + xs[1]), xs[2..], m, k);
      HornerStep(acc, xs[0], xs[1], k);
      assert Pairs(xs, m, k)[1..] == Pairs(xs[2..], m, k);
      assert xs[1..][1..] == xs[2..];
    }
  }

  lemma WeighedBound(x0: nat, x1: nat, k: nat, bound: nat)
    requires x0 <= bound && x1 <= bound
    ensures k * x0 + x1 <= (k + 1) * bound
  {
    assert k * (bound - x0) >= 0;
  }

  lemma {:induction false} PairsNarrow(xs: seq<nat>, m: nat, k: nat, bound: nat, limit: nat)
    requires |xs| % 2 == 0 && Kept(xs, m) && Narrow(xs, bound) && limit == (k + 1) * bound
    ensures Narrow(Pairs(xs, m, k), limit)
  {
    if xs != [] {
      PairsNarrow(xs[2..], m, k, bound, limit);
      WeighedBound(xs[0], xs[1], k, bound);
    }
  }

  lemma NibbleTwice(b: byte)
    ensures And(And(b, 0x0f), 0x0f) == And(b, 0x0f)
  {
    AndBound(b, 0x0f);
    AndFull(And(b, 0x0f), 4, 0x0f) by { Pow2Of8(); }
  }

  lemma {:induction false} PairsOfNibbles(s: seq<byte>)
    requires |s| % 2 == 0
    ensures Pairs(s, 0x0f, 10) == Pairs(Nibbles(s), 0x0f, 10)
  {
    if s != [] {
      assert Nibbles(s)[2..] == Nibbles(s[2..]);
      PairsOfNibbles(s[2..]);
      NibbleTwice(s[0]);
      NibbleTwice(s[1]);
    }
  }

  lemma {:induction false} Pow2Sum(n: nat, k: nat)
    ensures Pow2(n + k) == Pow2(k) * Pow2(n)
  {
    if k > 0 {
      Pow2Sum(n, k - 1);
    }
  }

  lemma Widths()
    ensures Pow2(4) == 0x10 && Pow2(8) == 0x100 && Pow2(16) == 0x1_0000 && Pow2(32) == 0x1_0000_0000
    ensures Pow2(64) == 0x1_0000_0000_0000_0000
  {
    Pow2Of8();
    Pow2Sum(8, 8);
    Pow2Sum(16, 16);
    Pow2Sum(32, 32);
  }

  lemma MaskNext(n: nat, w: nat, m: nat)
    ensures MaskEven(0, w, m) == 0
    ensures MaskEven(n + 1, w, m) == m + Pow2(2 * w) * MaskEven(n, w, m)
    ensures MaskOdd(n, w, m) == Pow2(w) * MaskEven(n, w, m)
  {
    ShlTwice(MaskEven(n, w, m), w, w);
    ShlIsProduct(MaskEven(n, w, m), 2 * w);
    ShlIsProduct(MaskEven(n, w, m), w);
  }

  /** The masks written out in the four folds. */
  lemma NibbleMasks()
    ensures MaskEven(1, 8, 0x0f) == 0x000f && MaskOdd(1, 8, 0x0f) == 0x0f00
    ensures MaskEven(2, 8, 0x0f) == 0x000f000f && MaskOdd(2, 8, 0x0f) == 0x0f000f00
    ensures MaskEven(4, 8, 0x0f) == 0x000f000f000f000f && MaskOdd(4, 8, 0x0f) == 0x0f000f000f000f00
    ensures MaskEven(8, 8, 0x0f) == 0x000f000f000f000f000f000f000f000f
    ensures MaskOdd(8, 8, 0x0f) == 0x0f000f000f000f000f000f000f000f00
  {
    Widths();
    MaskNext(0, 8, 0x0f);
    MaskNext(1, 8, 0x0f);
    MaskNext(2, 8, 0x0f);
    MaskNext(3, 8, 0x0f);
    MaskNext(4, 8, 0x0f);
    MaskNext(5, 8, 0x0f);
    MaskNext(6, 8, 0x0f);
    MaskNext(7, 8, 0x0f);
    MaskNext(8, 8, 0x0f);
  }

  lemma WiderMasks()
    ensures MaskEven(1, 16, 0xff) == 0x000000ff && MaskOdd(1, 16, 0xff) == 0x00ff0000
    ensures MaskEven(2, 16, 0xff) == 0x000000ff000000ff && MaskOdd(2, 16, 0xff) == 0x00ff000000ff0000
    ensures MaskEven(4, 16, 0xff) == 0x000000ff000000ff000000ff000000ff
    ensures MaskOdd(4, 16, 0xff) == 0x00ff000000ff000000ff000000ff0000
    ensures MaskEven(1, 32, 0xffff) == 0xffff && MaskOdd(1, 32, 0xffff) == 0x0000ffff00000000
    ensures MaskEven(2, 32, 0xffff) == 0x000000000000ffff000000000000ffff
    ensures MaskOdd(2, 32, 0xffff) == 0x0000ffff000000000000ffff00000000
    ensures MaskEven(1, 64, 0xffffffff) == 0xffffffff
    ensures MaskOdd(1, 64, 0xffffffff) == 0x00000000ffffffff0000000000000000
  {
    Widths();
    MaskNext(0, 16, 0xff);
    MaskNext(1, 16, 0xff);
    MaskNext(2, 16, 0xff);
    MaskNext(3, 16, 0xff);
    MaskNext(4, 16, 0xff);
    MaskNext(0, 32, 0xffff);
    MaskNext(1, 32, 0xffff);
    MaskNext(2, 32, 0xffff);
    MaskNext(0, 64, 0xffffffff);
    MaskNext(1, 64, 0xffffffff);
  }

  /** The word `x` holds lanes `xs` of `w` bits, each at most `bound`, denoting `value` in radix `r`. */
  ghost predicate Holds(x: nat, xs: seq<nat>, w: nat, bound: nat, r: nat, value: nat) {
    x == Lanes(xs, w) && Narrow(xs, bound) && Horner(0, xs, r) == value
  }

  /** The first step reads the nibbles of the bytes. */
  lemma FirstLevel(s: seq<byte>) returns (ps: seq<nat>)
    requires |s| % 2 == 0
    ensures |ps| == |s| / 2
    ensures Holds(And(LeWord(s), MaskOdd(|s| / 2, 8, 0x0f)) / 0x100 + And(LeWord(s), MaskEven(|s| / 2, 8, 0x0f)) * 10,
                  ps, 16, 165, 100, Loose(s))
  {
    Widths();
    LeWordIsLanes(s);
    FoldStep(s, 8, 0x0f, 10);
    PairsOfNibbles(s);
    forall i | 0 <= i < |s| ensures Nibbles(s)[i] <= 15 { NibbleOfDigit(s[i]); }
    NarrowIsKept(Nibbles(s), 15, 4);
    PairsKeepValue(0, Nibbles(s), 0x0f, 10);
    PairsNarrow(Nibbles(s), 0x0f, 10, 15, 165);
    ps := Pairs(Nibbles(s), 0x0f, 10);
  }

  lemma NextLevel(x: nat, xs: seq<nat>, w: nat, m: nat, j: nat, k: nat, bound: nat, limit: nat, value: nat)
    returns (y: nat, ps: seq<nat>)
    requires |xs| % 2 == 0 && Holds(x, xs, w, bound, k, value)
    requires bound < Pow2(j) <= Pow2(w) && m == Pow2(j) - 1 && limit == (k + 1) * bound
    ensures y == And(x, MaskOdd(|xs| / 2, w, m)) / Pow2(w) + And(x, MaskEven(|xs| / 2, w, m)) * k
    ensures |ps| == |xs| / 2 && Holds(y, ps, 2 * w, limit, k * k, value)
  {
    NarrowIsKept(xs, bound, j);
    ps := Pairs(xs, m, k);
    y := Lanes(ps, 2 * w);
    assert Horner(0, ps, k * k) == value by { PairsKeepValue(0, xs, m, k); }
    assert Narrow(ps, limit) by { PairsNarrow(xs, m, k, bound, limit); }
    FoldStep(xs, w, m, k);
  }

  lemma LastLevel(x: nat, ps: seq<nat>, w: nat, bound: nat, r: nat, value: nat)
    requires |ps| == 1 && Holds(x, ps, w, bound, r, value)
    ensures x == value
  {
    assert ps[1..] == [];
    assert Lanes(ps[1..], w) == 0;
    ShlIsProduct(0, w);
    assert Horner(0, ps, r) == Horner(0 * r + ps[0], ps[1..], r) == ps[0];
  }

  lemma Level16(x: nat, xs: seq<nat>, value: nat) returns (ps: seq<nat>)
    requires |xs| in {2, 4, 8} && Holds(x, xs, 16, 165, 100, value)
    ensures |ps| == |xs| / 2
    ensures |xs| == 2 ==> Holds(And(x, 0x00ff0000) / 0x1_0000 + And(x, 0x000000ff) * 100, ps, 32, 16665, 10000, value)
    ensures |xs| == 4 ==> Holds(And(x, 0x00ff000000ff0000) / 0x1_0000 + And(x, 0x000000ff000000ff) * 100,
                                ps, 32, 16665, 10000, value)
    ensures |xs| == 8 ==> Holds(And(x, 0x00ff000000ff000000ff000000ff0000) / 0x1_0000 +
                                And(x, 0x000000ff000000ff000000ff000000ff) * 100, ps, 32, 16665, 10000, value)
  {
    WiderMasks();
    Widths();
    var y: nat;
    y, ps := NextLevel(x, xs, 16, 0xff, 8, 100, 165, 16665, value);
  }

  lemma Level32(x: nat, xs: seq<nat>, value: nat) returns (ps: seq<nat>)
    requires |xs| in {2, 4} && Holds(x, xs, 32, 16665, 10000, value)
    ensures |ps| == |xs| / 2
    ensures |xs| == 2 ==> Holds(And(x, 0x0000ffff00000000) / 0x1_0000_0000 + And(x, 0x000000000000ffff) * 10000,
                                ps, 64, 166666665, 100_000_000, value)
    ensures |xs| == 4 ==> Holds(And(x, 0x0000ffff000000000000ffff00000000) / 0x1_0000_0000 +
                                And(x, 0x000000000000ffff000000000000ffff) * 10000, ps, 64, 166666665,
                                100_000_000, value)
  {
    WiderMasks();
    Widths();
    var y: nat;
    y, ps := NextLevel(x, xs, 32, 0xffff, 16, 10000, 16665, 166666665, value);
  }

  lemma Level64(x: nat, xs: seq<nat>, value: nat) returns (ps: seq<nat>)
    requires |xs| == 2 && Holds(x, xs, 64, 166666665, 100_000_000, value)
    ensures |ps| == 1
    ensures Holds(And(x, 0x00000000ffffffff0000000000000000) / 0x1_0000_0000_0000_0000 +
                  And(x, 0x000000000000000000000000ffffffff) * 100_000_000,
                  ps, 128, 16666666666666665, 10_000_000_000_000_000, value)
  {
    WiderMasks();
    Widths();
    var y: nat;
    y, ps := NextLevel(x, xs, 64, 0xffffffff, 32, 100_000_000, 166666665, 16666666666666665, value);
  }

  lemma Level8(s: seq<byte>) returns (ps: seq<nat>)
    requires |s| in {2, 4, 8, 16}
    ensures |ps| == |s| / 2
    ensures |s| == 2 ==> Holds(And(LeWord(s), 0x0f00) / 0x100 + And(LeWord(s), 0x000f) * 10, ps, 16, 165, 100, Loose(s))
    ensures |s| == 4 ==> Holds(And(LeWord(s), 0x0f000f00) / 0x100 + And(LeWord(s), 0x000f000f) * 10,
                               ps, 16, 165, 100, Loose(s))
    ensures |s| == 8 ==> Holds(And(LeWord(s), 0x0f000f000f000f00) / 0x100 + And(LeWord(s), 0x000f000f000f000f) * 10,
                               ps, 16, 165, 100, Loose(s))
    ensures |s| == 16 ==> Holds(And(LeWord(s), 0x0f000f000f000f000f000f000f000f00) / 0x100 +
                                And(LeWord(s), 0x000f000f000f000f000f000f000f000f) * 10, ps, 16, 165, 100, Loose(s))
  {
    NibbleMasks();
    ps := FirstLevel(s);
  }

  lemma TwoFolds(s: seq<byte>)
    requires |s| == 2
    ensures TwoToU16(LeWord(s)) == Loose(s)
  {
    var p := Level8(s);
    LastLevel(TwoToU16(LeWord(s)), p, 16, 165, 100, Loose(s));
  }

  lemma FourFolds(s: seq<byte>)
    requires |s| == 4
    ensures FourToU32(LeWord(s)) == Loose(s)
  {
    var a := And(LeWord(s), 0x0f000f00) / 0x100 + And(LeWord(s), 0x000f000f) * 10;
    var p := Level8(s);
    var q := Level16(a, p, Loose(s));
    LastLevel(FourToU32(LeWord(s)), q, 32, 16665, 10000, Loose(s));
  }

  /** Eight packed digits fold to the number a digit-by-digit loop computes. */
  lemma EightFolds(s: seq<byte>)
    requires |s| == 8
    ensures EightToU64(LeWord(s)) == Loose(s)
  {
    var a := And(LeWord(s), 0x0f000f000f000f00) / 0x100 + And(LeWord(s), 0x000f000f000f000f) * 10;
    var b := And(a, 0x00ff000000ff0000) / 0x1_0000 + And(a, 0x000000ff000000ff) * 100;
    var p := Level8(s);
    var q := Level16(a, p, Loose(s));
    var r := Level32(b, q, Loose(s));
    LastLevel(EightToU64(LeWord(s)), r, 64, 166666665, 100_000_000, Loose(s));
  }

  /** And so do sixteen. */
  lemma SixteenFolds(s: seq<byte>)
    requires |s| == 16
    ensures SixteenToU128(LeWord(s)) == Loose(s)
  {
    var a := And(LeWord(s), 0x0f000f000f000f000f000f000f000f00) / 0x100 +
             And(LeWord(s), 0x000f000f000f000f000f000f000f000f) * 10;
    var b := And(a, 0x00ff000000ff000000ff000000ff0000) / 0x1_0000 + And(a, 0x000000ff000000ff000000ff000000ff) * 100;
    var c := And(b, 0x0000ffff000000000000ffff00000000) / 0x1_0000_0000 +
             And(b, 0x000000000000ffff000000000000ffff) * 10000;
    var p := Level8(s);
    var q := Level16(a, p, Loose(s));
    var r := Level32(b, q, Loose(s));
    var t := Level64(c, r, Loose(s));
    LastLevel(SixteenToU128(LeWord(s)), t, 128, 16666666666666665, 10_000_000_000_000_000, Loose(s));
  }
}

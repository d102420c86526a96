/** `HHMMSS` text to seconds: the pair check and the mixed-radix fold. */
module Hhmmss {
  import opened Wrappers
  import opened Words
  import opened Bytes
  import opened SwarLanes
  import opened SwarFold
  import opened DecimalCheck
  import opened DecimalFold
  import opened IntegerParser

  /** `le_bytes_to_u64`: a shorter field is padded with zero bytes in front. */
  function LeBytesToU64(u: seq<byte>): nat
    requires |u| <= 8
  {
    LeWord(Repeat(0, 8 - |u|) + u)
  }

  /** The three folds: pairs of digits, minutes and seconds, hours and the rest. */
  function FoldTime(word: nat): nat {
    var a := And(word, 0x0f000f000f000f00) / 0x100 + And(word, 0x000f000f000f000f) * 10;
    var b := And(a, 0x00ff000000ff0000) / 0x1_0000 + And(a, 0x000000ff000000ff) * 60;
    And(b, 0x0000ffff00000000) / 0x1_0000_0000 + And(b, 0x000000000000ffff) * 3600
  }

  /** `parse_hhmmss_to_seconds`. */
  function ParseSeconds(u: seq<byte>): Parsed {
    if |u| != 6 && |u| != 8 then Err(InvalidLength)
    else
      var word := LeBytesToU64(u);
      LeWordBound(Repeat(0, 8 - |u|) + u);
      CheckConstants();
      if !CheckDecimalPairs(word) then Err(InvalidDigit) else Ok(FoldTime(word))
  }

  // ------------------------------------------------------------------------------------------------
  // The pair check
  // ------------------------------------------------------------------------------------------------

  function Uniform(n: nat, c: nat): (s: seq<nat>)
    ensures |s| == n && forall i :: 0 <= i < n ==> s[i] == c
  {
    seq(n, _ => c)
  }

  lemma {:induction false} ZeroShl(w: nat)
    ensures Shl(0, w) == 0
  {
    if w > 0 {
      ZeroShl(w - 1);
    }
  }

  lemma {:induction false} ShlGrows(x: nat, w: nat)
    ensures Shl(x, w) >= x
  {
    if w > 0 {
      ShlGrows(x, w - 1);
    }
  }

  /** Masking every lane with the same mask leaves nothing exactly when it leaves nothing in each. */
  lemma {:induction false} NothingLeft(xs: seq<nat>, m: nat, w: nat)
    requires m < Pow2(w) && forall i :: 0 <= i < |xs| ==> xs[i] < Pow2(w)
    ensures And(Lanes(xs, w), Lanes(Uniform(|xs|, m), w)) == 0 <==> forall i :: 0 <= i < |xs| ==> And(xs[i], m) == 0
  {
    if xs != [] {
      var rest, mask := Lanes(xs[1..], w), Lanes(Uniform(|xs| - 1, m), w);
      assert Uniform(|xs|, m)[1..] == Uniform(|xs| - 1, m);
      AndSplitShl(xs[0], m, rest, mask, w);
      NothingLeft(xs[1..], m, w);
      ZeroShl(w);
      ShlGrows(And(rest, mask), w);
      assert forall i :: 1 <= i < |xs| ==> xs[i] == xs[1..][i - 1];
      assert forall i :: 0 <= i < |xs| - 1 ==> xs[1..][i] == xs[i + 1];
    }
  }

  lemma HighByte(x: nat)
    requires x < 0x1_0000
    ensures And(x, 0xFF00) == 0 <==> x < 0x100
  {
    var low, high := x % 256, x / 256;
    HighByteParts(low, high, 0xFF, 0xFF00);
  }

  lemma HighByteParts(low: byte, high: byte, f: nat, m: nat)
    requires f == 0xFF && m == 256 * f
    ensures And(low + 256 * high, m) == 256 * high
  {
    assert And(low + 256 * high, m) == And(low, 0) + 256 * And(high, f) by {
      Pow2Of8();
      AndSplit(low, 0, high, f, 8);
    }
    AndZero(low);
    FullByte(high);
  }

  lemma NothingHigh(xs: seq<nat>)
    requires |xs| == 4 && forall i :: 0 <= i < 4 ==> xs[i] < 0x1_0000
    ensures And(Lanes(xs, 16), 0xFF00FF00FF00FF00) == 0 <==> forall i :: 0 <= i < 4 ==> xs[i] < 0x100
  {
    Widths();
    assert Lanes(Uniform(4, 0xFF00), 16) == 0xFF00FF00FF00FF00 by { Lanes4(Uniform(4, 0xFF00)); }
    NothingLeft(xs, 0xFF00, 16);
    forall i | 0 <= i < 4 ensures And(xs[i], 0xFF00) == 0 <==> xs[i] < 0x100 { HighByte(xs[i]); }
  }

  lemma Lanes4(xs: seq<nat>)
    requires |xs| == 4
    ensures Lanes(xs, 16) == xs[0] + 0x1_0000 * xs[1] + 0x1_0000_0000 * xs[2] + 0x1_0000_0000_0000 * xs[3]
  {
    Widths();
    assert xs[1..][1..] == xs[2..] && xs[2..][1..] == xs[3..] && xs[3..][1..] == [];
    ShlIsProduct(0, 16);
    ShlIsProduct(xs[3], 16);
    ShlIsProduct(Lanes(xs[2..], 16), 16);
    ShlIsProduct(Lanes(xs[1..], 16), 16);
    assert Lanes(xs[3..], 16) == xs[3] + Shl(0, 16);
    assert Lanes(xs[2..], 16) == xs[2] + 0x1_0000 * xs[3];
    assert Lanes(xs[1..], 16) == xs[1] + 0x1_0000 * (xs[2] + 0x1_0000 * xs[3]);
  }

  /** Every second byte, starting with `s[k]`. */
  function Column(s: seq<byte>, k: nat): seq<nat>
    requires |s| == 8 && k < 2
  {
    [s[k], s[2 + k], s[4 + k], s[6 + k]]
  }

  lemma {:induction false} EvensAreLanes(xs: seq<nat>, w: nat, m: nat, ys: seq<nat>)
    requires |xs| == 2 * |ys| && forall i :: 0 <= i < |ys| ==> And(xs[2 * i], m) == ys[i]
    ensures Evens(xs, w, m) == Lanes(ys, 2 * w)
  {
    if xs != [] {
      EvensAreLanes(xs[2..], w, m, ys[1..]);
      ShlTwice(Evens(xs[2..], w, m), w, w);
    }
  }

  lemma {:induction false} OddsAreLanes(xs: seq<nat>, w: nat, m: nat, ys: seq<nat>)
    requires |xs| == 2 * |ys| && forall i :: 0 <= i < |ys| ==> And(xs[2 * i + 1], m) == ys[i]
    ensures Odds(xs, w, m) == Lanes(ys, 2 * w)
  {
    if xs != [] {
      OddsAreLanes(xs[2..], w, m, ys[1..]);
      ShlTwice(Odds(xs[2..], w, m), w, w);
    }
  }

  lemma ByteMasks()
    ensures MaskEven(4, 8, 0xff) == 0x00FF00FF00FF00FF && MaskOdd(4, 8, 0xff) == 0xFF00FF00FF00FF00
  {
    Widths();
    MaskNext(0, 8, 0xff);
    MaskNext(1, 8, 0xff);
    MaskNext(2, 8, 0xff);
    MaskNext(3, 8, 0xff);
    MaskNext(4, 8, 0xff);
  }

  lemma FullByte(b: byte)
    ensures And(b, 0xff) == b
  {
    AndFull(b, 8, 0xff) by { Pow2Of8(); }
  }

  lemma FullBytes()
    ensures forall b: byte :: And(b, 0xff) == b
  {
    forall b: byte ensures And(b, 0xff) == b { FullByte(b); }
  }

  lemma EvensOf(s: seq<byte>)
    requires |s| == 8
    ensures Evens(s, 8, 0xff) == Lanes(Column(s, 0), 16)
  {
    FullBytes();
    EvensAreLanes(s, 8, 0xff, Column(s, 0));
  }

  lemma OddsOf(s: seq<byte>)
    requires |s| == 8
    ensures Odds(s, 8, 0xff) == Lanes(Column(s, 1), 16)
  {
    FullBytes();
    OddsAreLanes(s, 8, 0xff, Column(s, 1));
  }

  lemma EvenColumn(s: seq<byte>)
    requires |s| == 8
    ensures And(LeWord(s), 0x00FF00FF00FF00FF) == Lanes(Column(s, 0), 16)
  {
    EvensOf(s);
    assert Pow2(8) == 0x100 by { Pow2Of8(); }
    assert MaskEven(4, 8, 0xff) == 0x00FF00FF00FF00FF by { ByteMasks(); }
    MaskedEvens(s, 8, 0xff);
    LeWordIsLanes(s);
  }

  lemma OddBytes(s: seq<byte>)
    requires |s| == 8
    ensures And(LeWord(s), 0xFF00FF00FF00FF00) == Shl(Odds(s, 8, 0xff), 8)
  {
    assert Pow2(8) == 0x100 by { Pow2Of8(); }
    assert MaskOdd(4, 8, 0xff) == 0xFF00FF00FF00FF00 by { ByteMasks(); }
    MaskedOdds(s, 8, 0xff);
    LeWordIsLanes(s);
  }

  lemma OddColumn(s: seq<byte>)
    requires |s| == 8
    ensures And(LeWord(s), 0xFF00FF00FF00FF00) / 0x100 == Lanes(Column(s, 1), 16)
  {
    OddBytes(s);
    OddsOf(s);
    Unshift(Odds(s, 8, 0xff));
  }

  lemma Unshift(x: nat)
    ensures Shl(x, 8) / 0x100 == x
  {
    ShlIsProduct(x, 8);
    Pow2Of8();
  }

  predicate NoneAboveNine(xs: seq<nat>) {
    forall i :: 0 <= i < |xs| ==> xs[i] <= 0x39
  }

  predicate Narrow4(xs: seq<nat>) {
    |xs| == 4 && forall i :: 0 <= i < 4 ==> xs[i] < 256
  }

  /** The upper bound on one column of bytes. */
  lemma UpperBound(xs: seq<nat>)
    requires Narrow4(xs)
    ensures And(Lanes(xs, 16) + 0x00C600C600C600C6, 0xFF00FF00FF00FF00) == 0 <==> NoneAboveNine(xs)
  {
    var zs := [xs[0] + 0xC6, xs[1] + 0xC6, xs[2] + 0xC6, xs[3] + 0xC6];
    Lanes4(xs);
    Lanes4(zs);
    NothingHigh(zs);
  }

  /** The lower bounds are met by every word that meets the upper ones. */
  lemma LowerBounds(xs: seq<nat>)
    requires Narrow4(xs) && NoneAboveNine(xs)
    ensures 0 <= Lanes(xs, 16) <= 0x00FF00FF00FF00FF
    ensures And((0x00FF00FF00FF00FF - Lanes(xs, 16)) + 0x00CF00CF00CF00CF, 0xFF00FF00FF00FF00) != 0
    ensures And((0xFF00FF00FF00FF00 - Lanes(xs, 16)) + 0x00CF00CF00CF00CF, 0xFF00FF00FF00FF00) != 0
  {
    var ys := [0x1CE - xs[0], 0x1CE - xs[1], 0x1CE - xs[2], 0x1CE - xs[3]];
    var zs := [0xFFCF - xs[0], 0xFFCF - xs[1], 0xFFCF - xs[2], 0xFFCF - xs[3]];
    Lanes4(xs);
    Lanes4(ys);
    Lanes4(zs);
    NothingHigh(ys);
    NothingHigh(zs);
  }

  /** The pair check bounds the bytes from above only: anything up to `'9'` passes. */
  lemma PairsAcceptIff(s: seq<byte>)
    requires |s| == 8
    ensures LeWord(s) < U64_LIMIT
    ensures CheckDecimalPairs(LeWord(s)) <==> forall i :: 0 <= i < 8 ==> s[i] <= 0x39
  {
    assert LeWord(s) < U64_LIMIT by { LeWordBound(s); CheckConstants(); }
    EvenColumn(s);
    OddColumn(s);
    ColumnIff(Column(s, 0), 0x00FF00FF00FF00FF);
    ColumnIff(Column(s, 1), 0xFF00FF00FF00FF00);
    Columns(s);
  }

  lemma ColumnIff(xs: seq<nat>, full: nat)
    requires Narrow4(xs) && full in {0x00FF00FF00FF00FF, 0xFF00FF00FF00FF00}
    ensures Lanes(xs, 16) <= full && (CheckColumn(Lanes(xs, 16), full) <==> NoneAboveNine(xs))
  {
    Lanes4(xs);
    UpperBound(xs);
    if NoneAboveNine(xs) {
      LowerBounds(xs);
    }
  }

  lemma Columns(s: seq<byte>)
    requires |s| == 8
    ensures NoneAboveNine(Column(s, 0)) && NoneAboveNine(Column(s, 1)) <==> forall i :: 0 <= i < 8 ==> s[i] <= 0x39
  {
    AllFour(Column(s, 0));
    AllFour(Column(s, 1));
    if NoneAboveNine(Column(s, 0)) && NoneAboveNine(Column(s, 1)) {
      forall i | 0 <= i < 8 ensures s[i] <= 0x39 {
        assert i in {0, 1, 2, 3, 4, 5, 6, 7};
      }
    }
  }

  lemma AllFour(xs: seq<nat>)
    requires |xs| == 4
    ensures NoneAboveNine(xs) <==> xs[0] <= 0x39 && xs[1] <= 0x39 && xs[2] <= 0x39 && xs[3] <= 0x39
  {
  }

  // ------------------------------------------------------------------------------------------------
  // The fold
  // ------------------------------------------------------------------------------------------------

  /** The low nibbles of two bytes as a two-digit number. */
  function TwoDigits(a: byte, b: byte): nat {
    10 * (a % 16) + b % 16
  }

  lemma TwoDigitsSmall(a: byte, b: byte)
    ensures TwoDigits(a, b) <= 165
    ensures And(TwoDigits(a, b), 0xff) == TwoDigits(a, b)
  {
    AndFull(TwoDigits(a, b), 8, 0xff) by { Pow2Of8(); }
  }

  lemma PairsStep(xs: seq<nat>, m: nat, k: nat)
    requires |xs| % 2 == 0
    ensures xs == [] ==> Pairs(xs, m, k) == []
    ensures xs != [] ==> Pairs(xs, m, k) == [k * And(xs[0], m) + And(xs[1], m)] + Pairs(xs[2..], m, k)
  {
  }

  lemma FourPairs(xs: seq<nat>, m: nat, k: nat)
    requires |xs| == 4
    ensures Pairs(xs, m, k) == [k * And(xs[0], m) + And(xs[1], m), k * And(xs[2], m) + And(xs[3], m)]
  {
    PairsStep(xs, m, k);
    PairsStep(xs[2..], m, k);
    PairsStep(xs[2..][2..], m, k);
  }

  lemma TwoNibbles(a: byte, b: byte, low: nat)
    requires low == 0x0f
    ensures 10 * And(a, low) + And(b, low) == TwoDigits(a, b)
  {
    NibbleOfDigit(a);
    NibbleOfDigit(b);
  }

  lemma StepTo(xs: seq<nat>, m: nat, k: nat, p: nat)
    requires |xs| % 2 == 0 && xs != [] && p == k * And(xs[0], m) + And(xs[1], m)
    ensures Pairs(xs, m, k) == [p] + Pairs(xs[2..], m, k)
  {
    PairsStep(xs, m, k);
  }

  /** Two bytes in front of others. */
  lemma PairInFront(s: seq<byte>, low: nat)
    requires |s| >= 2 && |s| % 2 == 0 && low == 0x0f
    ensures Pairs(s, low, 10) == [TwoDigits(s[0], s[1])] + Pairs(s[2..], low, 10)
  {
    TwoNibbles(s[0], s[1], low);
    StepTo(s, low, 10, TwoDigits(s[0], s[1]));
  }

  function PairsOf(s: seq<byte>): (xs: seq<nat>)
    requires |s| == 8
    ensures |xs| == 4
  {
    [TwoDigits(s[0], s[1]), TwoDigits(s[2], s[3]), TwoDigits(s[4], s[5]), TwoDigits(s[6], s[7])]
  }

  lemma EightPairs(s: seq<byte>)
    requires |s| == 8
    ensures Pairs(s, 0x0f, 10) == PairsOf(s)
  {
    PairInFront(s, 0x0f);
    PairInFront(s[2..], 0x0f);
    PairInFront(s[4..], 0x0f);
    PairInFront(s[6..], 0x0f);
    assert s[2..][2..] == s[4..] && s[4..][2..] == s[6..] && s[6..][2..] == [];
    PairsStep([], 0x0f, 10);
  }

  lemma FirstFold(s: seq<byte>)
    requires |s| == 8
    ensures And(LeWord(s), 0x0f000f000f000f00) / 0x100 + And(LeWord(s), 0x000f000f000f000f) * 10 ==
            Lanes(PairsOf(s), 16)
  {
    Widths();
    NibbleMasks();
    LeWordIsLanes(s);
    FoldStep(s, 8, 0x0f, 10);
    EightPairs(s);
  }

  lemma SecondFold(xs: seq<nat>)
    requires |xs| == 4 && forall i :: 0 <= i < 4 ==> xs[i] <= 165 && And(xs[i], 0xff) == xs[i]
    ensures var a := Lanes(xs, 16);
            And(a, 0x00ff000000ff0000) / 0x1_0000 + And(a, 0x000000ff000000ff) * 60 ==
            Lanes([60 * xs[0] + xs[1], 60 * xs[2] + xs[3]], 32)
  {
    assert Pairs(xs, 0xff, 60) == [60 * xs[0] + xs[1], 60 * xs[2] + xs[3]] by { FourPairs(xs, 0xff, 60); }
    assert Pow2(16) == 0x1_0000 && Pow2(8) == 0x100 by { Widths(); }
    assert MaskEven(2, 16, 0xff) == 0x000000ff000000ff && MaskOdd(2, 16, 0xff) == 0x00ff000000ff0000 by {
      WiderMasks();
    }
    FoldStep(xs, 16, 0xff, 60);
  }

  lemma OnePair(x: nat, y: nat, full: nat)
    requires x < 0x1_0000 && y < 0x1_0000 && full == 0xffff
    ensures Pairs([x, y], full, 3600) == [3600 * x + y]
  {
    AndFull(x, 16, full) by { Widths(); }
    AndFull(y, 16, full) by { Widths(); }
    StepTo([x, y], full, 3600, 3600 * x + y);
    PairsStep([], full, 3600);
  }

  lemma FoldTwo(xs: seq<nat>, full: nat)
    requires |xs| == 2 && full == 0xffff && xs[0] < 0x1_0000 && xs[1] < 0x1_0000
    ensures var b := Lanes(xs, 32);
            And(b, 0x0000ffff00000000) / 0x1_0000_0000 + And(b, 0x000000000000ffff) * 3600 ==
            Lanes(Pairs(xs, full, 3600), 64)
  {
    assert Pow2(32) == 0x1_0000_0000 && Pow2(16) == 0x1_0000 by { Widths(); }
    assert MaskOdd(1, 32, 0xffff) == 0x0000ffff00000000 && MaskEven(1, 32, 0xffff) == 0x000000000000ffff by {
      WiderMasks();
    }
    FoldStepWith(xs, 32, full, 3600, 0x0000ffff00000000, 0x000000000000ffff, 0x1_0000_0000);
  }

  lemma ThirdFold(x: nat, y: nat)
    requires x < 0x1_0000 && y < 0x1_0000
    ensures var b := Lanes([x, y], 32);
            And(b, 0x0000ffff00000000) / 0x1_0000_0000 + And(b, 0x000000000000ffff) * 3600 == 3600 * x + y
  {
    OnePair(x, y, 0xffff);
    SingleLane(3600 * x + y, 64);
    FoldTwo([x, y], 0xffff);
  }

  lemma SingleLane(x: nat, w: nat)
    ensures Lanes([x], w) == x
  {
    assert [x][1..] == [];
    ZeroShl(w);
  }

  /** One fold after the other. */
  lemma Chained(word: nat, a: nat, b: nat, total: nat)
    requires And(word, 0x0f000f000f000f00) / 0x100 + And(word, 0x000f000f000f000f) * 10 == a
    requires And(a, 0x00ff000000ff0000) / 0x1_0000 + And(a, 0x000000ff000000ff) * 60 == b
    requires And(b, 0x0000ffff00000000) / 0x1_0000_0000 + And(b, 0x000000000000ffff) * 3600 == total
    ensures FoldTime(word) == total
  {
  }

  /** The three folds weigh four pairs of digits. */
  lemma FoldsPairs(s: seq<byte>, xs: seq<nat>)
    requires |s| == 8 && xs == PairsOf(s)
    ensures FoldTime(LeWord(s)) == 3600 * (60 * xs[0] + xs[1]) + (60 * xs[2] + xs[3])
  {
    var x, y := 60 * xs[0] + xs[1], 60 * xs[2] + xs[3];
    FirstFold(s);
    PairsAreSmall(s);
    SecondFold(xs);
    ThirdFold(x, y);
    Chained(LeWord(s), Lanes(xs, 16), Lanes([x, y], 32), 3600 * x + y);
  }

  lemma PairsAreSmall(s: seq<byte>)
    requires |s| == 8
    ensures forall i :: 0 <= i < 4 ==> PairsOf(s)[i] <= 165 && And(PairsOf(s)[i], 0xff) == PairsOf(s)[i]
  {
    TwoDigitsSmall(s[0], s[1]);
    TwoDigitsSmall(s[2], s[3]);
    TwoDigitsSmall(s[4], s[5]);
    TwoDigitsSmall(s[6], s[7]);
  }

  lemma TwoDigitsValue(a: byte, b: byte)
    requires IsDigit(a) && IsDigit(b)
    ensures AllDigits([a, b]) && TwoDigits(a, b) == DigitsValue([a, b])
  {
    assert [a, b][..1] == [a] && [a][..0] == [];
    assert DigitsValue([a]) == a - ZERO;
  }

  predicate NoneAbove(u: seq<byte>) {
    forall i :: 0 <= i < |u| ==> u[i] <= 0x39
  }

  lemma ZerosInFront(u: seq<byte>, s: seq<byte>)
    requires |u| == 6 && s == [0, 0] + u
    ensures Repeat(0, 2) + u == s && (NoneAbove(s) <==> NoneAbove(u))
  {
    assert forall i :: 0 <= i < 6 ==> u[i] == s[2 + i];
  }

  lemma SixBytes(u: seq<byte>, s: seq<byte>)
    requires |u| == 6 && s == [0, 0] + u
    ensures |s| == 8 && s[0] == 0 && s[1] == 0
    ensures s[2] == u[0] && s[3] == u[1] && s[4] == u[2] && s[5] == u[3] && s[6] == u[4] && s[7] == u[5]
  {
  }

  lemma PairsAre(s: seq<byte>, xs: seq<nat>, a: byte, b: byte, c: byte, d: byte, e: byte, f: byte, g: byte, h: byte)
    requires |s| == 8 && s[0] == a && s[1] == b && s[2] == c && s[3] == d
    requires s[4] == e && s[5] == f && s[6] == g && s[7] == h && xs == PairsOf(s)
    ensures xs == [TwoDigits(a, b), TwoDigits(c, d), TwoDigits(e, f), TwoDigits(g, h)]
  {
  }

  /** Both widths are read through one word of eight bytes. */
  lemma ReadsWord(u: seq<byte>, s: seq<byte>, read: Parsed)
    requires |u| in {6, 8} && s == Repeat(0, 8 - |u|) + u && read == ParseSeconds(u)
    ensures LeWord(s) < U64_LIMIT
    ensures read == if CheckDecimalPairs(LeWord(s)) then Ok(FoldTime(LeWord(s))) else Err(InvalidDigit)
  {
    LeWordBound(s);
    CheckConstants();
  }

  lemma ReadsPairs(u: seq<byte>, s: seq<byte>, xs: seq<nat>, read: Parsed)
    requires |u| in {6, 8} && s == Repeat(0, 8 - |u|) + u && xs == PairsOf(s) && read == ParseSeconds(u)
    ensures read == if NoneAbove(s) then Ok(3600 * (60 * xs[0] + xs[1]) + (60 * xs[2] + xs[3])) else Err(InvalidDigit)
  {
    ReadsWord(u, s, read);
    PairsAcceptIff(s);
    FoldsPairs(s, xs);
  }

  lemma SixFrom(u: seq<byte>, s: seq<byte>, xs: seq<nat>, read: Parsed)
    requires |u| == 6 && s == [0, 0] + u && xs == PairsOf(s)
    requires read == if NoneAbove(s) then Ok(3600 * (60 * xs[0] + xs[1]) + (60 * xs[2] + xs[3])) else Err(InvalidDigit)
    ensures read ==
            if NoneAbove(u) then Ok(3600 * TwoDigits(u[0], u[1]) + 60 * TwoDigits(u[2], u[3]) + TwoDigits(u[4], u[5]))
            else Err(InvalidDigit)
  {
    ZerosInFront(u, s);
    SixBytes(u, s);
    PairsAre(s, xs, 0, 0, u[0], u[1], u[2], u[3], u[4], u[5]);
    SixWeighed(xs, NoneAbove(s), read);
  }

  lemma SixWeighed(xs: seq<nat>, pass: bool, read: Parsed)
    requires |xs| == 4 && xs[0] == 0
    requires read == if pass then Ok(3600 * (60 * xs[0] + xs[1]) + (60 * xs[2] + xs[3])) else Err(InvalidDigit)
    ensures read == if pass then Ok(3600 * xs[1] + 60 * xs[2] + xs[3]) else Err(InvalidDigit)
  {
  }

  /** Six bytes are accepted exactly when none is above `'9'`, and their low nibbles are weighed as hours,
    * minutes and seconds. */
  lemma SixIff(u: seq<byte>)
    requires |u| == 6
    ensures ParseSeconds(u) ==
            if NoneAbove(u) then Ok(3600 * TwoDigits(u[0], u[1]) + 60 * TwoDigits(u[2], u[3]) + TwoDigits(u[4], u[5]))
            else Err(InvalidDigit)
  {
    var s := [0, 0] + u;
    ZerosInFront(u, s);
    ReadsPairs(u, s, PairsOf(s), ParseSeconds(u));
    SixFrom(u, s, PairsOf(s), ParseSeconds(u));
  }

  lemma BlankNibbles(u: seq<byte>, b: byte)
    requires |u| == 6 && (forall i :: 0 <= i < 6 ==> u[i] == b) && b <= 0x39 && b % 16 == 0
    ensures ParseSeconds(u) == Ok(0)
  {
    SixIff(u);
  }

  /** So bytes that are no digits are read: six spaces are midnight. */
  lemma SpacesAreMidnight()
    ensures ParseSeconds(Repeat(0x20, 6)) == Ok(0)
  {
    BlankNibbles(Repeat(0x20, 6), 0x20);
  }

  lemma EightIff(u: seq<byte>)
    requires |u| == 8
    ensures ParseSeconds(u) ==
            if NoneAbove(u) then
              Ok(3600 * (60 * TwoDigits(u[0], u[1]) + TwoDigits(u[2], u[3])) +
              (60 * TwoDigits(u[4], u[5]) + TwoDigits(u[6], u[7])))
            else Err(InvalidDigit)
  {
    assert Repeat(0, 0) + u == u;
    ReadsPairs(u, u, PairsOf(u), ParseSeconds(u));
  }

  /** Fields of any other length are refused as such, and only they. */
  lemma OtherLengths(u: seq<byte>)
    ensures ParseSeconds(u) == Err(InvalidLength) <==> |u| != 6 && |u| != 8
  {
    if |u| == 6 {
      SixIff(u);
    } else if |u| == 8 {
      EightIff(u);
    }
  }

  lemma PairAt(u: seq<byte>, k: nat)
    requires AllDigits(u) && k + 2 <= |u|
    ensures DigitsValue(u[k..k + 2]) == TwoDigits(u[k], u[k + 1])
  {
    assert u[k..k + 2] == [u[k], u[k + 1]];
    TwoDigitsValue(u[k], u[k + 1]);
  }

  lemma EightParts(u: seq<byte>)
    requires |u| == 8 && AllDigits(u)
    ensures DigitsValue(u[..2]) == TwoDigits(u[0], u[1]) && DigitsValue(u[2..4]) == TwoDigits(u[2], u[3])
    ensures DigitsValue(u[4..6]) == TwoDigits(u[4], u[5]) && DigitsValue(u[6..]) == TwoDigits(u[6], u[7])
  {
    PairAt(u, 0);
    PairAt(u, 2);
    PairAt(u, 4);
    PairAt(u, 6);
    assert u[..2] == u[0..2] && u[6..] == u[6..8];
  }

  lemma NotSeconds(h: nat, m: nat, s: nat, c: nat, read: Parsed)
    requires read == Ok(3600 * (60 * h + m) + (60 * s + c))
    ensures read == Ok(60 * (3600 * h + 60 * m + s) + c)
    ensures read == Ok(3600 * h + 60 * m + s) <==> h == m == s == c == 0
  {
  }

  /** Eight digits with their hundredths are not read as seconds: every unit weighs sixty times too much, and
    * the hundredths stand where the seconds should. */
  lemma EightDigitsRead(u: seq<byte>)
    requires |u| == 8 && AllDigits(u)
    ensures var h, m, s, c := DigitsValue(u[..2]), DigitsValue(u[2..4]), DigitsValue(u[4..6]), DigitsValue(u[6..]);
            ParseSeconds(u) == Ok(60 * (3600 * h + 60 * m + s) + c) &&
            (ParseSeconds(u) == Ok(3600 * h + 60 * m + s) <==> h == m == s == c == 0)
  {
    EightIff(u);
    EightParts(u);
    NotSeconds(DigitsValue(u[..2]), DigitsValue(u[2..4]), DigitsValue(u[4..6]), DigitsValue(u[6..]), ParseSeconds(u));
  }

  /** Six digits are read as hours, minutes and seconds, whatever their ranges. */
  lemma ReadsSeconds(u: seq<byte>)
    requires |u| == 6 && AllDigits(u)
    ensures ParseSeconds(u) ==
            Ok(3600 * DigitsValue(u[..2]) + 60 * DigitsValue(u[2..4]) + DigitsValue(u[4..]))
  {
    SixIff(u);
    PairAt(u, 0);
    PairAt(u, 2);
    PairAt(u, 4);
    assert u[..2] == u[0..2] && u[4..] == u[4..6];
  }
}

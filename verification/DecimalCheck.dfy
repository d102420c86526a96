/** Word-wide validation of ASCII digits. */
module DecimalCheck {
  import opened Words
  import opened Bytes
  import opened SwarLanes

  /** `check_decimal_bit_*_optimal` on a word of `n` lanes: two wrapping subtractions and one mask. */
  predicate CheckDecimalBits(chunk: nat, n: nat) {
    var notAbove := WrappingSub(chunk, Rep(0x3A, n), n);
    var notBelow := WrappingSub(Rep(0x2F, n), chunk, n);
    And(And(notAbove, notBelow), Rep(0x80, n)) == Rep(0x80, n)
  }

  /** The constants of the four widths are the repeated bytes. */
  lemma CheckConstants()
    ensures Rep(0x3A, 2) == 0x3A3A && Rep(0x2F, 2) == 0x2F2F && Rep(0x80, 2) == 0x8080 && Pow256(2) == 0x1_0000
    ensures Rep(0x3A, 4) == 0x3A3A3A3A && Rep(0x2F, 4) == 0x2F2F2F2F && Rep(0x80, 4) == 0x80808080
    ensures Rep(0x3A, 8) == 0x3A3A3A3A3A3A3A3A && Rep(0x2F, 8) == 0x2F2F2F2F2F2F2F2F
    ensures Rep(0x80, 8) == 0x8080808080808080 && Pow256(8) == U64_LIMIT && Pow256(4) == U32_LIMIT
    ensures Rep(0x3A, 16) == 0x3A3A3A3A3A3A3A3A3A3A3A3A3A3A3A3A && Rep(0x2F, 16) == 0x2F2F2F2F2F2F2F2F2F2F2F2F2F2F2F2F
    ensures Rep(0x80, 16) == 0x80808080808080808080808080808080 && Pow256(16) == U64_LIMIT * U64_LIMIT
  {
  }

  /** What the check lets through: a digit first, and after it anything from `'/'` to `':'`. */
  predicate Passes(s: seq<byte>) {
    s != [] && IsDigit(s[0]) && forall i :: 1 <= i < |s| ==> 0x2F <= s[i] <= 0x3A
  }

  predicate AllBetween(s: seq<byte>) {
    forall i :: 0 <= i < |s| ==> 0x2F <= s[i] <= 0x3A
  }

  lemma BetweenSplit(s: seq<byte>)
    requires s != []
    ensures AllBetween(s) <==> 0x2F <= s[0] <= 0x3A && AllBetween(s[1..])
  {
    assert s == [s[0]] + s[1..];
  }

  /** The two subtractions of the check, lane by lane, entered with a borrow. */
  predicate LanesHigh(s: seq<byte>, borrow: nat)
    requires borrow <= 1
  {
    AllHigh(SubLanes(s, Repeat(0x3A, |s|), borrow)) && AllHigh(SubLanes(Repeat(0x2F, |s|), s, borrow))
  }

  /** A lane that passes both tests sends a borrow into both chains. */
  lemma FirstLane(s: seq<byte>, borrow: nat)
    requires s != [] && borrow <= 1
    ensures LanesHigh(s, borrow) <==> 0x30 - borrow <= s[0] <= 0x39 + borrow && LanesHigh(s[1..], 1)
  {
    var n := |s| - 1;
    assert Repeat(0x3A, |s|)[1..] == Repeat(0x3A, n) && Repeat(0x2F, |s|)[1..] == Repeat(0x2F, n);
    var above, below := SubLanes(s, Repeat(0x3A, |s|), borrow), SubLanes(Repeat(0x2F, |s|), s, borrow);
    AllHighSplit(above);
    AllHighSplit(below);
    if above[0] >= 0x80 && below[0] >= 0x80 {
      assert above[1..] == SubLanes(s[1..], Repeat(0x3A, n), 1);
      assert below[1..] == SubLanes(Repeat(0x2F, n), s[1..], 1);
    }
  }

  /** Once both chains carry a borrow they carry it to the end, and each lane is widened by one. */
  lemma {:induction false} BorrowedLanes(s: seq<byte>)
    ensures LanesHigh(s, 1) <==> AllBetween(s)
  {
    if s != [] {
      FirstLane(s, 1);
      BorrowedLanes(s[1..]);
      BetweenSplit(s);
    }
  }

  lemma LanesPassIff(s: seq<byte>)
    requires s != []
    ensures LanesHigh(s, 0) <==> Passes(s)
  {
    FirstLane(s, 0);
    BorrowedLanes(s[1..]);
    assert forall i :: 1 <= i < |s| ==> s[i] == s[1..][i - 1];
    assert forall i :: 0 <= i < |s| - 1 ==> s[1..][i] == s[i + 1];
  }

  lemma CheckReadsTopBits(s: seq<byte>)
    ensures CheckDecimalBits(LeWord(s), |s|) <==> LanesHigh(s, 0)
  {
    var above, below := SubLanes(s, Repeat(0x3A, |s|), 0), SubLanes(Repeat(0x2F, |s|), s, 0);
    assert LeWord(above) == WrappingSub(LeWord(s), Rep(0x3A, |s|), |s|) by {
      SubLanesIsWrappingSub(s, Repeat(0x3A, |s|));
      RepIsWord(0x3A, |s|);
    }
    assert LeWord(below) == WrappingSub(Rep(0x2F, |s|), LeWord(s), |s|) by {
      SubLanesIsWrappingSub(Repeat(0x2F, |s|), s);
      RepIsWord(0x2F, |s|);
    }
    TopBitsOfAll(above, below);
  }

  /** The word check accepts exactly the chunks whose first byte is a digit and whose later bytes lie in
    * `0x2F..=0x3A`, for any lane count: below the first lane there is no borrow to widen it. */
  lemma CheckAcceptsIff(s: seq<byte>)
    requires s != []
    ensures CheckDecimalBits(LeWord(s), |s|) <==> Passes(s)
  {
    CheckReadsTopBits(s);
    LanesPassIff(s);
  }

  /** Digits pass, and a decimal point is refused wherever it stands. */
  lemma DigitsPassPointsDoNot(s: seq<byte>)
    requires s != []
    ensures AllDigits(s) ==> CheckDecimalBits(LeWord(s), |s|)
    ensures POINT in s ==> !CheckDecimalBits(LeWord(s), |s|)
  {
    CheckAcceptsIff(s);
  }

  // ------------------------------------------------------------------------------------------------
  // The pair-based check used for times
  // ------------------------------------------------------------------------------------------------

  /** One column of every other byte against both bounds. */
  predicate CheckColumn(column: nat, full: nat)
    requires column <= full
  {
    && And(column + 0x00C600C600C600C6, 0xFF00FF00FF00FF00) == 0
    && And((full - column) + 0x00CF00CF00CF00CF, 0xFF00FF00FF00FF00) != 0
  }

  /** `check_decimal_bit_u64`. */
  predicate CheckDecimalPairs(chunk: nat)
    requires chunk < U64_LIMIT
  {
    AndBound(chunk, 0x00FF00FF00FF00FF);
    AndBound(chunk, 0xFF00FF00FF00FF00);
    && CheckColumn(And(chunk, 0x00FF00FF00FF00FF), 0x00FF00FF00FF00FF)
    && CheckColumn(And(chunk, 0xFF00FF00FF00FF00) / 0x100, 0xFF00FF00FF00FF00)
  }
}

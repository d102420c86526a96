/** Deleting the decimal point from a packed field with masks and one shift. */
module PointSqueeze {
  import opened Wrappers
  import opened Words
  import opened Bytes
  import opened SwarLanes
  import opened IntegerParser

  /** The mask tables of a word of `n` lanes, indexed by the position of the point. */
  function DecimalMask(idx: nat): nat {
    Pow256(idx) - 1
  }

  function PointLocationMask(n: nat, idx: nat): nat
    requires idx < n
  {
    0xFF * Pow256(n - 1 - idx)
  }

  function PointLocationValue(n: nat, idx: nat): nat
    requires idx < n
  {
    0x2E * Pow256(n - 1 - idx)
  }

  /** `squeeze_point_u64` and `squeeze_point_u128`, for a word of `n` lanes. */
  function SqueezePoint(chunk: nat, idx: nat, n: nat): Parsed
    requires chunk < Pow256(n)
  {
    if idx >= n then Err(InvalidPointIndex)
    else if And(chunk, PointLocationMask(n, idx)) == PointLocationValue(n, idx) then Err(InvalidPointLocation)
    else Ok(Squeezed(chunk, idx, n))
  }

  function Squeezed(chunk: nat, idx: nat, n: nat): nat
    requires idx < n
  {
    And(chunk, FractionMask(idx, n)) + DecimalPart(chunk, idx, n) + 0x30
  }

  /** `!decimal_mask << 8` in a word of `n` lanes. */
  function FractionMask(idx: nat, n: nat): nat
    requires idx <= n
  {
    Pow256Monotone(idx, n);
    Truncated((Pow256(n) - 1 - DecimalMask(idx)) * 0x100, n)
  }

  /** `(chunk & decimal_mask) << 8`. */
  function DecimalPart(chunk: nat, idx: nat, n: nat): nat {
    Truncated(And(chunk, DecimalMask(idx)) * 0x100, n)
  }

  // ------------------------------------------------------------------------------------------------
  // Masks as bytes
  // ------------------------------------------------------------------------------------------------

  lemma {:induction false} Pow256Monotone(m: nat, n: nat)
    requires m <= n
    ensures Pow256(m) <= Pow256(n)
  {
    if m < n {
      Pow256Monotone(m, n - 1);
    }
  }

  lemma AndEnds(b: byte, m: byte)
    requires m == 0xFF || m == 0
    ensures AndByte(b, m) == if m == 0 then 0 else b
  {
    if m == 0 {
      assert And(b, 0) == 0;
    } else {
      AndFull(b, 8, m) by { Pow2Of8(); }
    }
  }

  lemma {:induction false} FullLanes(n: nat)
    ensures LeWord(Repeat(0xFF, n)) == Pow256(n) - 1 && LeWord(Repeat(0, n)) == 0
  {
    if n > 0 {
      assert Repeat(0xFF, n)[1..] == Repeat(0xFF, n - 1) && Repeat(0, n)[1..] == Repeat(0, n - 1);
      FullLanes(n - 1);
    }
  }

  /** A field of zeros, bytes, and zeros. */
  lemma Shifted(j: nat, s: seq<byte>, k: nat)
    ensures LeWord(Repeat(0, j) + s + Repeat(0, k)) == Pow256(j) * LeWord(s)
  {
    FullLanes(j);
    FullLanes(k);
    LeWordConcat(Repeat(0, j) + s, Repeat(0, k));
    LeWordConcat(Repeat(0, j), s);
    assert Pow256(j + |s|) * 0 == 0;
  }

  function ByteMask(j: nat, k: nat, n: nat): (mask: seq<byte>)
    requires j <= k <= n
    ensures |mask| == n && forall i :: 0 <= i < n ==> mask[i] == if j <= i < k then 0xFF else 0
  {
    Repeat(0, j) + Repeat(0xFF, k - j) + Repeat(0, n - k)
  }

  lemma ByteMaskIs(j: nat, k: nat, n: nat)
    requires j <= k <= n
    ensures LeWord(ByteMask(j, k, n)) == Pow256(j) * (Pow256(k - j) - 1)
  {
    Shifted(j, Repeat(0xFF, k - j), n - k);
    FullLanes(k - j);
  }

  lemma SameBytes(a: seq<byte>, b: seq<byte>)
    requires |a| == |b| && forall i :: 0 <= i < |a| ==> a[i] == b[i]
    ensures a == b
  {
  }

  function Middle(s: seq<byte>, j: nat, k: nat): (kept: seq<byte>)
    requires j <= k <= |s|
    ensures |kept| == |s| && forall i :: 0 <= i < |s| ==> kept[i] == if j <= i < k then s[i] else 0
  {
    Repeat(0, j) + s[j..k] + Repeat(0, |s| - k)
  }

  lemma KeptLanes(s: seq<byte>, mask: seq<byte>, kept: seq<byte>, j: nat, k: nat)
    requires j <= k <= |s| && |mask| == |s| && forall i :: 0 <= i < |s| ==> mask[i] == if j <= i < k then 0xFF else 0
    requires |kept| == |s| && forall i :: 0 <= i < |s| ==> kept[i] == if j <= i < k then s[i] else 0
    ensures AndLanes(s, mask) == kept
  {
    KeptBytes(s, mask, j, k);
    SameBytes(AndLanes(s, mask), kept);
  }

  /** A mask of whole bytes keeps the bytes from `j` to `k` and clears the others. */
  lemma MaskedBytes(s: seq<byte>, j: nat, k: nat)
    requires j <= k <= |s|
    ensures And(LeWord(s), Pow256(j) * (Pow256(k - j) - 1)) == Pow256(j) * LeWord(s[j..k])
  {
    ByteMaskIs(j, k, |s|);
    AndIsByLanes(s, ByteMask(j, k, |s|));
    KeptLanes(s, ByteMask(j, k, |s|), Middle(s, j, k), j, k);
    Shifted(j, s[j..k], |s| - k);
  }

  lemma KeptBytes(s: seq<byte>, mask: seq<byte>, j: nat, k: nat)
    requires |mask| == |s| && forall i :: 0 <= i < |s| ==> mask[i] == if j <= i < k then 0xFF else 0
    ensures forall i :: 0 <= i < |s| ==> AndLanes(s, mask)[i] == if j <= i < k then s[i] else 0
  {
    forall i | 0 <= i < |s| ensures AndLanes(s, mask)[i] == if j <= i < k then s[i] else 0 {
      AndEnds(s[i], mask[i]);
    }
  }

  // ------------------------------------------------------------------------------------------------
  // What the squeeze computes
  // ------------------------------------------------------------------------------------------------

  lemma SameFactorIff(p: nat, a: nat, b: nat)
    requires p >= 1
    ensures p * a == b * p <==> a == b
  {
    MulSign(p, a - b);
    assert p * (a - b) == p * a - b * p;
  }

  lemma MaskedBytesAs(s: seq<byte>, j: nat, k: nat, mask: nat, kept: nat)
    requires j <= k <= |s| && mask == Pow256(j) * (Pow256(k - j) - 1) && kept == LeWord(s[j..k])
    ensures And(LeWord(s), mask) == Pow256(j) * kept
  {
    MaskedBytes(s, j, k);
  }

  lemma OneByte(s: seq<byte>, j: nat)
    requires j < |s|
    ensures LeWord(s[j..j + 1]) == s[j] && Pow256(1) == 256
  {
    assert s[j..j + 1] == [s[j]] && [s[j]][1..] == [];
  }

  lemma Commuted(a: nat, b: nat)
    ensures a * b == b * a
  {
  }

  lemma MaskedByte(s: seq<byte>, j: nat)
    requires j < |s|
    ensures And(LeWord(s), 0xFF * Pow256(j)) == Pow256(j) * s[j]
  {
    OneByte(s, j);
    Commuted(0xFF, Pow256(j));
    MaskedBytesAs(s, j, j + 1, 0xFF * Pow256(j), s[j]);
  }

  /** The location test looks at the byte opposite the configured one. */
  lemma LocationTest(s: seq<byte>, idx: nat)
    requires idx < |s|
    ensures And(LeWord(s), PointLocationMask(|s|, idx)) == PointLocationValue(|s|, idx) <==> s[|s| - 1 - idx] == POINT
  {
    MaskedByte(s, |s| - 1 - idx);
    SameFactorIff(Pow256(|s| - 1 - idx), s[|s| - 1 - idx], 0x2E);
  }

  /** Shifting the complement of a mask of low bytes up by one. */
  lemma ShiftedComplement(p: nat, r: nat, word: nat)
    requires p >= 1 && r >= 1 && word == 256 * p * r
    ensures ((word - p) * 0x100) % word == 256 * p * (r - 1)
  {
    assert word - 256 * p == 256 * p * (r - 1);
    assert 256 * p * (r - 1) >= 0 by { MulSign(256 * p, r - 1); }
    DivModUnique((word - p) * 0x100, word, 0xFF, word - 256 * p);
  }

  lemma FractionMaskIs(idx: nat, n: nat)
    requires idx < n
    ensures FractionMask(idx, n) == Pow256(idx + 1) * (Pow256(n - idx - 1) - 1)
  {
    var p, r := Pow256(idx), Pow256(n - idx - 1);
    assert Pow256(n) == 256 * p * r by { Pow256Sum(idx + 1, n - idx - 1); }
    assert Pow256(n) - 1 - DecimalMask(idx) == Pow256(n) - p;
    TruncatedIsModulo((Pow256(n) - p) * 0x100, n);
    ShiftedComplement(p, r, Pow256(n));
  }

  lemma {:induction false} Pow256Sum(m: nat, n: nat)
    ensures Pow256(m + n) == Pow256(m) * Pow256(n)
  {
    if n > 0 {
      Pow256Sum(m, n - 1);
      assert Pow256(m) * (256 * Pow256(n - 1)) == 256 * (Pow256(m) * Pow256(n - 1));
    }
  }

  lemma DecimalBytes(s: seq<byte>, idx: nat)
    requires idx < |s|
    ensures And(LeWord(s), DecimalMask(idx)) == LeWord(s[..idx])
    ensures 256 * LeWord(s[..idx]) < Pow256(|s|)
  {
    MaskedBytes(s, 0, idx);
    LeWordBound(s[..idx]);
    Pow256Monotone(idx + 1, |s|);
  }

  lemma DecimalPartIs(s: seq<byte>, idx: nat)
    requires idx < |s|
    ensures DecimalPart(LeWord(s), idx, |s|) == 256 * LeWord(s[..idx])
  {
    var x := LeWord(s[..idx]);
    DecimalBytes(s, idx);
    TruncatedIsModulo(x * 0x100, |s|);
    FitsAfterShift(x, Pow256(|s|));
  }

  lemma FitsAfterShift(x: nat, d: nat)
    requires 256 * x < d
    ensures (x * 0x100) % d == 256 * x
  {
    DivModUnique(256 * x, d, 0, 256 * x);
  }

  lemma Glued(a: seq<byte>, b: seq<byte>)
    ensures LeWord([ZERO] + a + b) == Pow256(|a| + 1) * LeWord(b) + 256 * LeWord(a) + 0x30
  {
    LeWordConcat([ZERO] + a, b);
    assert ([ZERO] + a)[1..] == a;
  }

  /** The squeeze drops the byte at the configured index, whatever it is, and puts a zero in front of the
    * field; it refuses only when the byte in the mirrored place is a point. */
  lemma SqueezeDrops(s: seq<byte>, idx: nat)
    ensures LeWord(s) < Pow256(|s|)
    ensures SqueezePoint(LeWord(s), idx, |s|) ==
            if idx >= |s| then Err(InvalidPointIndex)
            else if s[|s| - 1 - idx] == POINT then Err(InvalidPointLocation)
            else Ok(LeWord([ZERO] + s[..idx] + s[idx + 1..]))
  {
    LeWordBound(s);
    if idx < |s| {
      SqueezedParts(s, idx);
      LocationTest(s, idx);
    }
  }

  lemma FractionPartIs(s: seq<byte>, idx: nat)
    requires idx < |s|
    ensures And(LeWord(s), FractionMask(idx, |s|)) == Pow256(idx + 1) * LeWord(s[idx + 1..])
  {
    FractionMaskIs(idx, |s|);
    MaskedBytes(s, idx + 1, |s|);
    assert s[idx + 1..|s|] == s[idx + 1..];
  }

  lemma SqueezedParts(s: seq<byte>, idx: nat)
    requires idx < |s|
    ensures Squeezed(LeWord(s), idx, |s|) == LeWord([ZERO] + s[..idx] + s[idx + 1..])
  {
    FractionPartIs(s, idx);
    DecimalPartIs(s, idx);
    Glued(s[..idx], s[idx + 1..]);
  }
}

/** Fixed-width numeric fields: the window, the sign, the point, and the packed digits behind them. */
module FixedExtractor {
  import opened Wrappers
  import opened Words
  import opened Bytes
  import opened SwarLanes
  import opened DecimalCheck
  import opened DecimalFold
  import opened IntegerParser
  import opened PointSqueeze

  /** Sizes of which no few add up to more than a machine word. */
  type Size = n: int | 0 <= n < 0x1000_0000_0000_0000

  /** A field's shape: `integerSize` counts the sign byte, the unused bytes are left out of the window. */
  datatype Shape = Shape(isSigned: bool, integerSize: Size, fractionSize: Size, unusedHead: Size, unusedTail: Size) {
    function FractionTotal(): nat {
      if fractionSize > 0 then 1 + fractionSize else 0
    }

    predicate Pointed() {
      fractionSize - unusedTail > 0
    }
  }

  datatype Reader = Reader(isSigned: bool, pointIdx: Option<nat>, start: nat, end: nat) {
    /** The position in the field at which the point is expected. */
    function PointIndex(): Option<nat> {
      if pointIdx.Some? then Some((pointIdx.value + start) % U64_LIMIT) else None
    }
  }

  datatype ConfigErr = InvalidSize

  /** `Config::build`, the subtractions wrapping as a `usize` does in a release build. */
  function Build(c: Shape): Result<Reader, ConfigErr> {
    var used := (c.integerSize + c.FractionTotal() - c.unusedHead - c.unusedTail) % U64_LIMIT;
    if c.integerSize == 0 && c.fractionSize == 0 then Err(InvalidSize)
    else if c.unusedHead + c.unusedTail > c.integerSize + c.fractionSize then Err(InvalidSize)
    else
      Ok(Reader(c.isSigned, if c.Pointed() then Some((c.integerSize - c.unusedHead) % U64_LIMIT) else None,
                c.unusedHead, (c.unusedHead + used) % U64_LIMIT))
  }

  /** The window is one a field can be cut to, and the point's place is a machine word. */
  predicate Ordered(r: Reader) {
    r.start <= r.end < U64_LIMIT && (r.pointIdx.Some? ==> r.pointIdx.value < U64_LIMIT)
  }

  /** And the point is expected inside it. */
  predicate Valid(r: Reader) {
    Ordered(r) && (r.pointIdx.Some? ==> r.start + r.pointIdx.value < r.end)
  }

  lemma WrapsNot(x: int)
    requires 0 <= x < U64_LIMIT
    ensures x % U64_LIMIT == x
  {
  }

  lemma WrapsBelow(x: int)
    requires -U64_LIMIT <= x < 0
    ensures x % U64_LIMIT == x + U64_LIMIT
  {
    DivModUnique(x, U64_LIMIT, -1, x + U64_LIMIT);
  }

  /** A reader that was built has its window where the shape says and looks for its point behind the integer
    * digits; the point is inside the window exactly when the unused head leaves it there. */
  lemma BuiltIsValid(c: Shape)
    requires Build(c).Ok?
    ensures var r := Build(c).value;
            Ordered(r) && r.start == c.unusedHead && r.end == c.integerSize + c.FractionTotal() - c.unusedTail &&
            r.PointIndex() == (if c.Pointed() then Some(c.integerSize) else None) &&
            (Valid(r) <==> !c.Pointed() || c.unusedHead <= c.integerSize)
  {
    var used := c.integerSize + c.FractionTotal() - c.unusedHead - c.unusedTail;
    WrapsNot(used);
    WrapsNot(c.unusedHead + used);
    if c.unusedHead <= c.integerSize {
      WrapsNot(c.integerSize - c.unusedHead);
      WrapsNot(c.integerSize);
    } else {
      WrapsBelow(c.integerSize - c.unusedHead);
      DivModUnique(U64_LIMIT + c.integerSize, U64_LIMIT, 1, c.integerSize);
    }
  }

  /** A shape can be built exactly when it has a digit and no more bytes are left unused than it has digits. */
  lemma BuildsIff(c: Shape)
    ensures Build(c).Ok? <==>
            c.integerSize + c.fractionSize > 0 && c.unusedHead + c.unusedTail <= c.integerSize + c.fractionSize
  {
  }

  type Read = Result<int, ParseErr>

  function Clip(r: Reader, data: seq<byte>): Result<seq<byte>, ParseErr>
    requires Ordered(r)
  {
    if |data| < r.end then Err(InvalidLength) else Ok(data[r.start..r.end])
  }

  /** The field behind zeros, as wide as the word. */
  function PaddedTo(clipped: seq<byte>, n: nat): (padded: seq<byte>)
    requires |clipped| <= n
    ensures |padded| == n
  {
    Repeat(ZERO, n - |clipped|) + clipped
  }

  /** The field right-justified in a word of zeros, its point squeezed out, and the bytes taken back. */
  function SqueezePadded(clipped: seq<byte>, idx: nat, n: nat): Result<seq<byte>, ParseErr>
    requires 0 < |clipped| <= n
  {
    var start := n - |clipped|;
    var padded := PaddedTo(clipped, n);
    LeWordBound(padded);
    match SqueezePoint(LeWord(padded), (idx + start) % U64_LIMIT, n)
    case Err(e) => Err(e)
    case Ok(word) => Ok(LeBytes(word, n)[start..])
  }

  /** The digits `parse_with_point_u64` takes out of the narrowest word the field fits. */
  function PointOut(clipped: seq<byte>, idx: nat): Result<seq<byte>, ParseErr> {
    if |clipped| == 0 then Err(Empty)
    else if |clipped| <= 8 then SqueezePadded(clipped, idx, 8)
    else if |clipped| <= 16 then SqueezePadded(clipped, idx, 16)
    else Err(Overflow)
  }

  function DigitsOf(r: Reader, clipped: seq<byte>, afterSign: bool): Result<seq<byte>, ParseErr> {
    match r.pointIdx
    case None => Ok(clipped)
    case Some(idx) => PointOut(clipped, Adjusted(idx, afterSign))
  }

  function ParseDigits(digits: Result<seq<byte>, ParseErr>): Parsed {
    match digits
    case Err(e) => Err(e)
    case Ok(bytes) => UnsignedDecimal(bytes, false, false)
  }

  function ParseUnsigned(r: Reader, clipped: seq<byte>, afterSign: bool): Parsed {
    ParseDigits(DigitsOf(r, clipped, afterSign))
  }

  /** The sign has been cut off in front of the point. */
  function Adjusted(idx: nat, afterSign: bool): nat {
    if afterSign && idx > 0 then idx - 1 else if afterSign then 0 else idx
  }

  /** The wrapping negation `!x + 1`. */
  function Negated(u: nat): int {
    AsI64((-1 - AsI64(u)) + 1)
  }

  predicate IsNegative(r: Reader, clipped: seq<byte>) {
    r.isSigned && clipped != [] && clipped[0] == MINUS
  }

  /** The magnitude with its sign, within the range of `i64`. */
  function WithSign(negative: bool, p: Parsed): Read {
    match p
    case Err(e) => Err(e)
    case Ok(u) =>
      if negative then (if u > I64_LIMIT then Err(NegOverflow) else Ok(Negated(u)))
      else if u > I64_LIMIT - 1 then Err(Overflow) else Ok(u)
  }

  function ParseSigned(r: Reader, clipped: seq<byte>): Read {
    if IsNegative(r, clipped) then WithSign(true, ParseUnsigned(r, clipped[1..], true))
    else WithSign(false, ParseUnsigned(r, clipped, false))
  }

  /** `to_i64`. */
  function ToI64(r: Reader, data: seq<byte>): Read
    requires Ordered(r)
  {
    match Clip(r, data)
    case Err(e) => Err(e)
    case Ok(clipped) => ParseSigned(r, clipped)
  }

  function PointCheck(r: Reader, data: seq<byte>): Option<ParseErr> {
    match r.PointIndex()
    case None => None
    case Some(i) =>
      if i >= |data| then Some(InvalidLength)
      else if data[i] != POINT then Some(InvalidPointLocation)
      else None
  }

  /** `to_i64_checked`: the point's presence is verified before it is deleted unseen. */
  function ToI64Checked(r: Reader, data: seq<byte>): Read
    requires Ordered(r)
  {
    if PointCheck(r, data).Some? then Err(PointCheck(r, data).value) else ToI64(r, data)
  }

  // ------------------------------------------------------------------------------------------------
  // What a padded chunk reads as
  // ------------------------------------------------------------------------------------------------

  /** The text left when the byte at `idx` is deleted and a zero put in front. */
  function WithoutPoint(clipped: seq<byte>, idx: nat): seq<byte>
    requires idx < |clipped|
  {
    [ZERO] + clipped[..idx] + clipped[idx + 1..]
  }

  /** The byte at `at` deleted and a zero put in front. */
  function DroppedFrom(padded: seq<byte>, at: nat): (whole: seq<byte>)
    requires at < |padded|
    ensures |whole| == |padded|
  {
    [ZERO] + padded[..at] + padded[at + 1..]
  }

  lemma PaddedDrops(clipped: seq<byte>, idx: nat, n: nat)
    requires 0 < |clipped| <= n && idx < |clipped|
    ensures var start := n - |clipped|;
            DroppedFrom(PaddedTo(clipped, n), idx + start)[start..] == WithoutPoint(clipped, idx)
  {
    var start := n - |clipped|;
    var padded := PaddedTo(clipped, n);
    assert padded[..idx + start] == Repeat(ZERO, start) + clipped[..idx];
    assert padded[idx + start + 1..] == clipped[idx + 1..];
    assert [ZERO] + Repeat(ZERO, start) == Repeat(ZERO, start) + [ZERO];
    assert DroppedFrom(padded, idx + start) == Repeat(ZERO, start) + WithoutPoint(clipped, idx);
  }

  /** The mirrored byte of the padded word: padding when the mirror falls before the field. */
  predicate Mirrored(clipped: seq<byte>, idx: nat, n: nat)
    requires |clipped| <= n && idx < |clipped|
  {
    var m := |clipped| - 1 - idx - (n - |clipped|);
    m >= 0 && clipped[m] == POINT
  }

  lemma MirrorOfPadded(clipped: seq<byte>, idx: nat, n: nat)
    requires |clipped| <= n && idx < |clipped|
    ensures PaddedTo(clipped, n)[|clipped| - 1 - idx] == POINT <==> Mirrored(clipped, idx, n)
  {
  }

  lemma SqueezesPadded(padded: seq<byte>, at: nat)
    requires at < |padded|
    ensures LeWord(padded) < Pow256(|padded|)
    ensures var r := SqueezePoint(LeWord(padded), at, |padded|);
            if padded[|padded| - 1 - at] == POINT then r == Err(InvalidPointLocation)
            else r.Ok? && LeBytes(r.value, |padded|) == DroppedFrom(padded, at)
  {
    SqueezeDrops(padded, at);
    LeBytesOfWord(DroppedFrom(padded, at));
  }

  lemma SqueezePaddedIs(clipped: seq<byte>, idx: nat, n: nat)
    requires 0 < |clipped| <= n <= 16 && idx < |clipped|
    ensures SqueezePadded(clipped, idx, n) ==
            if Mirrored(clipped, idx, n) then Err(InvalidPointLocation) else Ok(WithoutPoint(clipped, idx))
  {
    var start := n - |clipped|;
    WrapsNot(idx + start);
    PaddedDrops(clipped, idx, n);
    MirrorOfPadded(clipped, idx, n);
    SqueezesPadded(PaddedTo(clipped, n), idx + start);
  }

  function Lanes(n: nat): nat {
    if n <= 8 then 8 else 16
  }

  lemma PointOutIs(clipped: seq<byte>, idx: nat)
    requires 0 < |clipped| <= 16 && idx < |clipped|
    ensures PointOut(clipped, idx) ==
            if Mirrored(clipped, idx, Lanes(|clipped|)) then Err(InvalidPointLocation)
            else Ok(WithoutPoint(clipped, idx))
  {
    SqueezePaddedIs(clipped, idx, Lanes(|clipped|));
  }

  // ------------------------------------------------------------------------------------------------
  // Well-formed fields
  // ------------------------------------------------------------------------------------------------

  /** A number as a field spells it: a sign, digits, and perhaps a point and more digits. */
  datatype Text = Text(negative: bool, whole: seq<byte>, fraction: Option<seq<byte>>) {
    predicate Valid() {
      AllDigits(whole) && (fraction.Some? ==> AllDigits(fraction.value)) && whole + Fraction() != []
    }

    function Fraction(): seq<byte> {
      if fraction.Some? then fraction.value else []
    }

    function Sign(): seq<byte> {
      if negative then [MINUS] else []
    }

    /** The text after the sign. */
    function Body(): seq<byte> {
      whole + if fraction.Some? then [POINT] + fraction.value else []
    }

    function Spelled(): seq<byte> {
      Sign() + Body()
    }

    /** What a digit-by-digit loop makes of it, in units of the last fraction digit. */
    function Value(): int
      requires Valid()
    {
      if negative then 0 - DigitsValue(whole + Fraction()) else DigitsValue(whole + Fraction())
    }
  }

  /** The text fills the reader's window, with the point where the reader expects it. */
  predicate Fills(t: Text, r: Reader) {
    && t.Valid() && Valid(r)
    && (t.negative ==> r.isSigned)
    && |t.Spelled()| == r.end - r.start
    && r.pointIdx == (if t.fraction.Some? then Some(|t.Sign()| + |t.whole|) else None)
  }

  lemma SmallValue(u: seq<byte>)
    requires AllDigits(u) && u != [] && |u| <= 18
    ensures UnsignedDecimal(u, false, false) == Ok(DigitsValue(u)) && DigitsValue(u) < I64_LIMIT
  {
    Small(u);
    ReadsTwenty(u, false, false);
  }

  /** What a digit-by-digit loop with checked arithmetic reads: the number if it fits an `i64`; one below it whose
    * digits still fit a machine word is a negative overflow. */
  function Expected(t: Text): Read
    requires t.Valid()
  {
    var v := t.Value();
    if -0x8000_0000_0000_0000 <= v < 0x8000_0000_0000_0000 then Ok(v)
    else if -0x1_0000_0000_0000_0000 < v < 0 then Err(NegOverflow)
    else Err(Overflow)
  }

  lemma ExpectedIs(t: Text)
    requires t.Valid()
    ensures Expected(t) == WithSign(t.negative, Exactly(DigitsValue(t.whole + t.Fraction()), false, false))
  {
    if t.negative && DigitsValue(t.whole + t.Fraction()) <= I64_LIMIT {
      NegatedSmall(DigitsValue(t.whole + t.Fraction()));
    }
  }

  lemma OnePoint(whole: seq<byte>, fraction: seq<byte>)
    requires AllDigits(whole) && AllDigits(fraction) && |whole| + 1 + |fraction| <= 16
    ensures var text := whole + [POINT] + fraction;
            WithoutPoint(text, |whole|) == [ZERO] + (whole + fraction) && !Mirrored(text, |whole|, Lanes(|text|))
  {
    var text := whole + [POINT] + fraction;
    assert forall i :: 0 <= i < |text| && i != |whole| ==> text[i] != POINT;
  }

  lemma ZeroInFront(digits: seq<byte>)
    requires AllDigits(digits) && |digits| <= 17
    ensures UnsignedDecimal([ZERO] + digits, false, false) == Ok(DigitsValue(digits)) && DigitsValue(digits) < I64_LIMIT
  {
    LeadingZeros([ZERO], digits);
    SmallValue([ZERO] + digits);
  }

  lemma PointedDigits(whole: seq<byte>, fraction: seq<byte>)
    requires AllDigits(whole) && AllDigits(fraction) && |whole| + 1 + |fraction| <= 16
    ensures PointOut(whole + [POINT] + fraction, |whole|) == Ok([ZERO] + (whole + fraction))
  {
    PointOutIs(whole + [POINT] + fraction, |whole|);
    OnePoint(whole, fraction);
  }

  lemma NegatedSmall(u: nat)
    requires u <= I64_LIMIT
    ensures Negated(u) == 0 - u
  {
  }

  /** The sign's limit catches of an escaped sum what the unsigned reader, told of it, would have caught. */
  lemma SignedMistake(upper: nat, lower: nat, negative: bool)
    requires SumEscapes(upper, lower, false, false)
    ensures WithSign(negative, Mistaken(upper, lower, false)) == Err(Overflow) <==>
              !SumEscapes(upper, lower, negative, !negative)
  {
  }

  /** A signed reader's digits come out as a checked loop's exactly when there are any to read and the
    * twenty-digit sum does not escape the sign's own limit. */
  lemma SignedDigitsIff(u: seq<byte>, negative: bool)
    requires AllDigits(u) && u != []
    ensures AllDigits(Significant(u))
    ensures WithSign(negative, UnsignedDecimal(u, false, false)) ==
              WithSign(negative, Exactly(DigitsValue(u), false, false)) <==>
            Significant(u) != [] && !Escapes(Significant(u), negative, !negative)
  {
    var t := Significant(u);
    ReadsDigitsIff(u, false, false);
    if Escapes(t, false, false) {
      EscapedIsLarge(u);
      SignedMistake(DigitsValue(t[..16]) * 10_000, DigitsValue(t[16..]), negative);
    }
  }

  lemma EscapedIsLarge(u: seq<byte>)
    requires AllDigits(u) && AllDigits(Significant(u)) && Escapes(Significant(u), false, false)
    ensures DigitsValue(u) >= U64_LIMIT
  {
    TwentyValue(Significant(u));
    if |u| > 20 {
      StripsToSameValue(u);
    }
  }

  /** The window's bytes after the sign, handed to the unsigned reader. */
  lemma ReadsBody(r: Reader, clipped: seq<byte>, t: Text)
    requires Fills(t, r) && clipped == t.Spelled()
    ensures ParseSigned(r, clipped) == WithSign(t.negative, ParseUnsigned(r, t.Body(), t.negative))
  {
    if t.negative {
      assert clipped[1..] == t.Body();
    } else {
      assert clipped == t.Body();
      assert clipped[0] == if t.whole != [] then t.whole[0] else POINT;
    }
  }

  lemma DigitsOfPointed(r: Reader, t: Text)
    requires Fills(t, r) && t.fraction.Some?
    ensures DigitsOf(r, t.Body(), t.negative) ==
            if |t.Body()| <= 16 then Ok([ZERO] + (t.whole + t.Fraction())) else Err(Overflow)
  {
    assert Adjusted(r.pointIdx.value, t.negative) == |t.whole|;
    assert t.Body() == t.whole + [POINT] + t.fraction.value;
    if |t.Body()| <= 16 {
      PointedDigits(t.whole, t.fraction.value);
    }
  }

  lemma ReadsPointed(r: Reader, t: Text)
    requires Fills(t, r) && t.fraction.Some?
    ensures ParseUnsigned(r, t.Body(), t.negative) ==
            if |t.Body()| <= 16 then Ok(DigitsValue(t.whole + t.Fraction())) else Err(Overflow)
    ensures |t.Body()| <= 16 ==> DigitsValue(t.whole + t.Fraction()) < I64_LIMIT
  {
    DigitsOfPointed(r, t);
    if |t.Body()| <= 16 {
      ZeroInFront(t.whole + t.Fraction());
    }
  }

  lemma ReadsPointFree(r: Reader, t: Text)
    requires Fills(t, r) && t.fraction.None?
    ensures ParseUnsigned(r, t.Body(), t.negative) == UnsignedDecimal(t.whole, false, false) &&
              t.whole + t.Fraction() == t.whole
  {
    assert t.Body() == t.whole;
  }

  lemma PointStands(r: Reader, data: seq<byte>, t: Text)
    requires Fills(t, r) && r.end <= |data| && data[r.start..r.end] == t.Spelled()
    ensures PointCheck(r, data) == None
  {
    if t.fraction.Some? {
      var i := |t.Sign()| + |t.whole|;
      WrapsNot(r.start + i);
      assert t.Spelled()[i] == POINT;
      assert data[r.start + i] == data[r.start..r.end][i];
    }
  }

  /** When a well-formed field is read, through padding, point squeeze, validation and log fold, as a
    * digit-by-digit loop would read it. */
  predicate Readable(t: Text)
    requires t.Valid()
  {
    if t.fraction.Some? then |t.Body()| <= 16
    else
      Significant(t.whole) != [] &&
      (AllDigits(Significant(t.whole)) ==> !Escapes(Significant(t.whole), t.negative, !t.negative))
  }

  lemma ReadsPointFreeIff(r: Reader, clipped: seq<byte>, t: Text)
    requires Fills(t, r) && clipped == t.Spelled() && t.fraction.None?
    ensures ParseSigned(r, clipped) == Expected(t) <==> Readable(t)
  {
    ReadsBody(r, clipped, t);
    ReadsPointFree(r, t);
    SignedDigitsIff(t.whole, t.negative);
    ExpectedIs(t);
  }

  lemma SignedValue(t: Text)
    requires t.Valid() && DigitsValue(t.whole + t.Fraction()) < I64_LIMIT
    ensures WithSign(t.negative, Ok(DigitsValue(t.whole + t.Fraction()))) == Ok(t.Value())
  {
    NegatedSmall(DigitsValue(t.whole + t.Fraction()));
  }

  lemma ReadsPointedWindow(r: Reader, clipped: seq<byte>, t: Text)
    requires Fills(t, r) && clipped == t.Spelled() && t.fraction.Some?
    ensures ParseSigned(r, clipped) == if Readable(t) then Ok(t.Value()) else Err(Overflow)
  {
    ReadsBody(r, clipped, t);
    ReadsPointed(r, t);
    if Readable(t) {
      SignedValue(t);
    }
  }

  /** Every shape, pointed or not and of any length, on every well-formed field; the unused bytes may hold
    * anything. A pointed field longer than the widest word is refused; zeros alone, more than twenty, are
    * taken for an empty field; an escaped sum is a wrong number. */
  lemma ReadsExactlyIff(r: Reader, data: seq<byte>, t: Text)
    requires Fills(t, r) && r.end <= |data| && data[r.start..r.end] == t.Spelled()
    ensures t.fraction.None? ==> (ToI64Checked(r, data) == Expected(t) <==> Readable(t))
    ensures t.fraction.Some? ==> ToI64Checked(r, data) == if Readable(t) then Ok(t.Value()) else Err(Overflow)
  {
    PointStands(r, data, t);
    if t.fraction.None? {
      ReadsPointFreeIff(r, data[r.start..r.end], t);
    } else {
      ReadsPointedWindow(r, data[r.start..r.end], t);
    }
  }

  /** In particular, up to sixteen bytes after the sign are read exactly, and up to eighteen digits with no
    * point. */
  lemma ReadsExactly(r: Reader, data: seq<byte>, t: Text)
    requires Fills(t, r) && r.end <= |data| && data[r.start..r.end] == t.Spelled()
    requires |t.Body()| <= if t.fraction.Some? then 16 else 18
    ensures ToI64Checked(r, data) == Ok(t.Value())
  {
    ReadsExactlyIff(r, data, t);
    if t.fraction.None? {
      assert t.whole + t.Fraction() == t.whole;
      Small(t.whole);
    }
  }

  // ------------------------------------------------------------------------------------------------
  // What is refused
  // ------------------------------------------------------------------------------------------------

  lemma ChunkIsLoose(s: seq<byte>)
    requires |s| in {1, 2, 4, 8, 16} && Checked(s).Ok?
    ensures AllBetween(s)
  {
    CheckedIs(s);
  }

  lemma GluedBetween(u: seq<byte>, k: nat)
    requires k <= |u| && AllBetween(u[..k]) && AllBetween(u[k..])
    ensures AllBetween(u)
  {
    assert u == u[..k] + u[k..];
  }

  lemma UpToEightLoose(u: seq<byte>)
    requires 1 <= |u| <= 8 && UpToEight(u).Ok?
    ensures AllBetween(u)
  {
    if |u| in {1, 2, 4, 8} {
      ChunkIsLoose(u);
    } else if |u| == 7 {
      ChunkIsLoose(u[..4]);
      ChunkIsLoose(u[4..6]);
      ChunkIsLoose(u[6..]);
      assert u == u[..4] + u[4..6] + u[6..];
    } else {
      var k := if |u| == 3 then 2 else 4;
      ChunkIsLoose(u[..k]);
      ChunkIsLoose(u[k..]);
      GluedBetween(u, k);
    }
  }

  lemma UpToTwelveLoose(u: seq<byte>)
    requires 9 <= |u| <= 12 && UpToTwelve(u).Ok?
    ensures AllBetween(u)
  {
    ChunkIsLoose(u[..8]);
    if |u| == 11 {
      ChunkIsLoose(u[8..10]);
      ChunkIsLoose(u[10..]);
      assert u == u[..8] + u[8..10] + u[10..];
    } else {
      ChunkIsLoose(u[8..]);
      GluedBetween(u, 8);
    }
  }

  lemma FifteenLoose(u: seq<byte>)
    requires |u| == 15 && UpToSixteen(u).Ok?
    ensures AllBetween(u)
  {
    ChunkIsLoose(u[..8]);
    SevenLoose(u[8..]);
    GluedBetween(u, 8);
  }

  lemma UpToSixteenLoose(u: seq<byte>)
    requires 13 <= |u| <= 16 && UpToSixteen(u).Ok?
    ensures AllBetween(u)
  {
    if |u| == 16 {
      ChunkIsLoose(u);
    } else if |u| == 15 {
      FifteenLoose(u);
    } else {
      ChunkIsLoose(u[..8]);
      ChunkIsLoose(u[8..12]);
      ChunkIsLoose(u[12..]);
      assert u == u[..8] + u[8..12] + u[12..];
    }
  }

  lemma SevenLoose(u: seq<byte>)
    requires |u| == 7 && LastSeven(u).Ok?
    ensures AllBetween(u)
  {
    ChunkIsLoose(u[..4]);
    ChunkIsLoose(u[4..6]);
    ChunkIsLoose(u[6..]);
    assert u == u[..4] + u[4..6] + u[6..];
  }

  lemma LastThreeLoose(u: seq<byte>)
    requires |u| == 3 && LastThree(u).Ok?
    ensures AllBetween(u)
  {
    ChunkIsLoose(u[..2]);
    ChunkIsLoose(u[2..]);
    GluedBetween(u, 2);
  }

  lemma UpToTwentyLoose(u: seq<byte>)
    requires 17 <= |u| <= 20 && UpToTwenty(u, false, false).Ok?
    ensures AllBetween(u)
  {
    ChunkIsLoose(u[..16]);
    if |u| == 19 {
      LastThreeLoose(u[16..]);
    } else {
      ChunkIsLoose(u[16..]);
    }
    GluedBetween(u, 16);
  }

  lemma StrippedLoose(u: seq<byte>)
    requires AllBetween(StripZeros(u))
    ensures AllBetween(u)
  {
    var k := |u| - |StripZeros(u)|;
    assert u[k..] == StripZeros(u);
    GluedBetween(u, k);
  }

  /** Whatever the unsigned reader accepts, at any length, holds only bytes from `'/'` to `':'`. */
  lemma AcceptedIsLoose(u: seq<byte>)
    requires UnsignedDecimal(u, false, false).Ok?
    ensures AllBetween(u)
    decreases |u|
  {
    if |u| <= 8 {
      UpToEightLoose(u);
    } else if |u| <= 12 {
      UpToTwelveLoose(u);
    } else if |u| <= 16 {
      UpToSixteenLoose(u);
    } else if |u| <= 20 {
      UpToTwentyLoose(u);
    } else {
      LongReads(u, false, false);
      AcceptedIsLoose(StripZeros(u));
      StrippedLoose(u);
    }
  }

  /** Not only digits: `"1:"` reads as twenty. */
  lemma ColonReadsAsTen()
    ensures !AllDigits([0x31, 0x3A]) && UnsignedDecimal([0x31, 0x3A], false, false) == Ok(20)
  {
    assert !IsDigit([0x31, 0x3A][1]);
    ReadsAsChunk([0x31, 0x3A], 20) by { LooseColon(); }
  }

  lemma ReadsAsChunk(s: seq<byte>, v: nat)
    requires |s| == 2 && Passes(s) && Loose(s) == v
    ensures UnsignedDecimal(s, false, false) == Ok(v)
  {
    CheckedIs(s);
  }

  lemma LooseColon()
    ensures Loose([0x31, 0x3A]) == 20
  {
    LooseConcat([0x31], [0x3A]);
    assert [0x31] + [0x3A] == [0x31, 0x3A];
    LooseOne(0x31);
    LooseOne(0x3A);
    NibbleOfDigit(0x31);
    NibbleOfDigit(0x3A);
    assert Pow10(1) == 10;
  }

  /** A byte at `i` of the window that a reader may accept. */
  predicate Acceptable(r: Reader, i: nat, b: byte) {
    || 0x2F <= b <= 0x3A
    || (i == 0 && r.isSigned && b == MINUS)
    || (r.pointIdx == Some(i))
  }

  /** Every byte of `u`, which stands `sign` bytes into the window, is one the reader may accept. */
  ghost predicate AllAcceptable(r: Reader, u: seq<byte>, sign: nat) {
    forall i {:trigger AcceptableAt(r, u, sign, i)} :: AcceptableAt(r, u, sign, i)
  }

  predicate AcceptableAt(r: Reader, u: seq<byte>, sign: nat, i: int) {
    0 <= i < |u| ==> Acceptable(r, i + sign, u[i])
  }

  predicate LooseAround(u: seq<byte>, p: nat) {
    forall i :: 0 <= i < |u| && i != p ==> 0x2F <= u[i] <= 0x3A
  }

  lemma LooseIsAcceptable(r: Reader, u: seq<byte>, sign: nat)
    requires AllBetween(u)
    ensures AllAcceptable(r, u, sign)
  {
  }

  lemma AroundIsAcceptable(r: Reader, u: seq<byte>, p: nat, sign: nat)
    requires LooseAround(u, p) && r.pointIdx == Some(p + sign)
    ensures AllAcceptable(r, u, sign)
  {
  }

  /** The digits taken out of `u` are all loose, so `u` is what the reader may accept. */
  lemma AcceptedDigits(r: Reader, u: seq<byte>, afterSign: bool, sign: nat, idx: nat, bytes: seq<byte>)
    requires DigitsOf(r, u, afterSign) == Ok(bytes) && AllBetween(bytes) && sign == (if afterSign then 1 else 0)
    requires r.pointIdx.Some? ==> r.pointIdx == Some(idx + sign) && idx < U64_LIMIT
    ensures AllAcceptable(r, u, sign)
  {
    if r.pointIdx.Some? {
      assert Adjusted(idx + sign, afterSign) == idx;
      LooseOutside(u, idx, bytes);
      AroundIsAcceptable(r, u, idx, sign);
    } else {
      LooseIsAcceptable(r, u, sign);
    }
  }

  /** A number read was read from loose digits. */
  lemma ParsedDigits(digits: Result<seq<byte>, ParseErr>)
    requires ParseDigits(digits).Ok?
    ensures digits.Ok? && AllBetween(digits.value)
  {
    AcceptedIsLoose(digits.value);
  }

  lemma SignInFront(r: Reader, clipped: seq<byte>)
    requires IsNegative(r, clipped) && AllAcceptable(r, clipped[1..], 1)
    ensures AllAcceptable(r, clipped, 0)
  {
    forall i ensures AcceptableAt(r, clipped, 0, i) {
      assert AcceptableAt(r, clipped[1..], 1, i - 1);
    }
  }

  /** The point, if it is expected in the window, is there. */
  predicate PointThere(r: Reader, clipped: seq<byte>) {
    r.pointIdx.Some? && r.pointIdx.value < |clipped| ==> clipped[r.pointIdx.value] == POINT
  }

  /** A minus is no point, so a point in the window stands behind it. */
  lemma PointBehindSign(r: Reader, clipped: seq<byte>) returns (idx: nat)
    requires IsNegative(r, clipped) && PointThere(r, clipped)
    ensures r.pointIdx.Some? ==> r.pointIdx == Some(idx + 1)
  {
    idx := if r.pointIdx.Some? then r.pointIdx.value - 1 else 0;
  }

  lemma AcceptedNegative(r: Reader, clipped: seq<byte>, bytes: seq<byte>)
    requires IsNegative(r, clipped) && PointThere(r, clipped) && (r.pointIdx.Some? ==> r.pointIdx.value < U64_LIMIT)
    requires DigitsOf(r, clipped[1..], true) == Ok(bytes) && AllBetween(bytes)
    ensures AllAcceptable(r, clipped, 0)
  {
    var idx := PointBehindSign(r, clipped);
    AcceptedDigits(r, clipped[1..], true, 1, idx, bytes);
    SignInFront(r, clipped);
  }

  lemma AcceptedPositive(r: Reader, clipped: seq<byte>, bytes: seq<byte>)
    requires DigitsOf(r, clipped, false) == Ok(bytes) && AllBetween(bytes)
    requires r.pointIdx.Some? ==> r.pointIdx.value < U64_LIMIT
    ensures AllAcceptable(r, clipped, 0)
  {
    AcceptedDigits(r, clipped, false, 0, if r.pointIdx.Some? then r.pointIdx.value else 0, bytes);
  }

  lemma AcceptedSigned(r: Reader, clipped: seq<byte>, read: Read)
    requires read == ParseSigned(r, clipped) && read.Ok? && PointThere(r, clipped)
    requires r.pointIdx.Some? ==> r.pointIdx.value < U64_LIMIT
    ensures AllAcceptable(r, clipped, 0)
  {
    if IsNegative(r, clipped) {
      ParsedDigits(DigitsOf(r, clipped[1..], true));
      AcceptedNegative(r, clipped, DigitsOf(r, clipped[1..], true).value);
    } else {
      ParsedDigits(DigitsOf(r, clipped, false));
      AcceptedPositive(r, clipped, DigitsOf(r, clipped, false).value);
    }
  }

  lemma CheckPasses(r: Reader, data: seq<byte>)
    requires Ordered(r) && r.end <= |data| && PointCheck(r, data).None?
    ensures PointThere(r, data[r.start..r.end])
  {
    if r.pointIdx.Some? && r.pointIdx.value < r.end - r.start {
      WrapsNot(r.pointIdx.value + r.start);
    }
  }

  lemma CheckedPasses(r: Reader, data: seq<byte>, read: Read)
    requires Ordered(r) && read == ToI64Checked(r, data) && read.Ok?
    ensures PointCheck(r, data).None? && r.end <= |data| && ParseSigned(r, data[r.start..r.end]) == read
  {
  }

  /** A field read without error, by any reader whatever its point's place, holds in its window only loose digits
    * besides a leading minus, and the point where it is expected. */
  lemma AcceptedWindow(r: Reader, data: seq<byte>)
    requires Ordered(r) && ToI64Checked(r, data).Ok?
    ensures r.end <= |data| && AllAcceptable(r, data[r.start..r.end], 0) && PointThere(r, data[r.start..r.end])
  {
    CheckedPasses(r, data, ToI64Checked(r, data));
    CheckPasses(r, data);
    AcceptedSigned(r, data[r.start..r.end], ToI64Checked(r, data));
  }

  lemma LooseOutside(u: seq<byte>, p: nat, bytes: seq<byte>)
    requires PointOut(u, p) == Ok(bytes) && AllBetween(bytes) && p < U64_LIMIT
    ensures LooseAround(u, p)
  {
    if p < |u| {
      PointOutIs(u, p);
      BytesAround(u, p);
    } else {
      SqueezesOutside(u, p, Lanes(|u|));
    }
  }

  /** A point's place off the window either falls off the padded word, or among the padding, where deleting a
    * byte changes nothing. */
  lemma SqueezesOutside(clipped: seq<byte>, idx: nat, n: nat)
    requires 0 < |clipped| <= n <= 16 && |clipped| <= idx < U64_LIMIT
    ensures SqueezePadded(clipped, idx, n).Ok? ==> SqueezePadded(clipped, idx, n) == Ok(clipped)
  {
    var start := n - |clipped|;
    if idx + start < U64_LIMIT {
      WrapsNot(idx + start);
    } else {
      var a := idx + start - U64_LIMIT;
      DivModUnique(idx + start, U64_LIMIT, 1, a);
      PaddingKept(clipped, PaddedTo(clipped, n), a, n);
      PaddingDropped(clipped, a, n);
      LeBytesOfWord(PaddedTo(clipped, n));
    }
  }

  lemma PaddingKept(clipped: seq<byte>, padded: seq<byte>, a: nat, n: nat)
    requires |clipped| <= n && a < n - |clipped| && padded == PaddedTo(clipped, n)
    ensures LeWord(padded) < Pow256(n)
    ensures SqueezePoint(LeWord(padded), a, n).Ok? ==> SqueezePoint(LeWord(padded), a, n) == Ok(LeWord(padded))
  {
    SqueezeDrops(padded, a);
    PaddingDropped(clipped, a, n);
  }

  lemma BytesAround(u: seq<byte>, p: nat)
    requires p < |u| && AllBetween(WithoutPoint(u, p))
    ensures LooseAround(u, p)
  {
    var w := WithoutPoint(u, p);
    assert forall i :: 0 <= i < p ==> w[i + 1] == u[i];
    assert forall i :: p < i < |u| ==> w[i] == u[i];
  }

  /** One byte in the window that the reader may not accept is enough. */
  lemma Refuses(r: Reader, data: seq<byte>, i: nat)
    requires Ordered(r) && r.end <= |data| && r.start <= i < r.end
    requires !Acceptable(r, i - r.start, data[i]) || (r.pointIdx == Some(i - r.start) && data[i] != POINT)
    ensures ToI64Checked(r, data).Err?
  {
    if ToI64Checked(r, data).Ok? {
      AcceptedWindow(r, data);
      Contradicted(r, data, i);
    }
  }

  lemma Contradicted(r: Reader, data: seq<byte>, i: nat)
    requires Ordered(r) && r.end <= |data| && r.start <= i < r.end
    requires AllAcceptable(r, data[r.start..r.end], 0) && PointThere(r, data[r.start..r.end])
    ensures Acceptable(r, i - r.start, data[i]) && (r.pointIdx == Some(i - r.start) ==> data[i] == POINT)
  {
    assert data[r.start..r.end][i - r.start] == data[i];
    assert AcceptableAt(r, data[r.start..r.end], 0, i - r.start);
  }

  /** A field is refused for its point, then for its length, before any of its digits is looked at. */
  lemma RefusedFirst(r: Reader, data: seq<byte>)
    requires Ordered(r)
    ensures var read, at := ToI64Checked(r, data), r.PointIndex();
            if at.Some? && at.value >= |data| then read == Err(InvalidLength)
            else if at.Some? && data[at.value] != 0x2E then read == Err(InvalidPointLocation)
            else if r.end > |data| then read == Err(InvalidLength)
            else if r.start == r.end then read == Err(Empty)
            else read == ParseSigned(r, data[r.start..r.end])
  {
  }

  lemma OnlyPoint(t: Text, i: nat)
    requires t.Valid() && i < |t.Spelled()|
    ensures t.Spelled()[i] == POINT <==> t.fraction.Some? && i == |t.Sign()| + |t.whole|
  {
    var at := |t.Sign()| + |t.whole|;
    assert i < |t.Sign()| ==> t.Spelled()[i] == MINUS;
    assert |t.Sign()| <= i < at ==> IsDigit(t.Spelled()[i]);
    assert t.fraction.Some? && i > at ==> IsDigit(t.Spelled()[i]);
  }

  /** A field well formed in one shape is refused by every reader of the same window that expects the point
    * elsewhere, or none. */
  lemma OtherShapeRefuses(r: Reader, other: Reader, data: seq<byte>, t: Text)
    requires Fills(t, r) && r.end <= |data| && data[r.start..r.end] == t.Spelled()
    requires Valid(other) && other.start == r.start && other.end == r.end && other.pointIdx != r.pointIdx
    ensures ToI64Checked(other, data).Err?
  {
    var p := if other.pointIdx.Some? then other.pointIdx.value else r.pointIdx.value;
    OnlyPoint(t, p);
    assert data[r.start + p] == data[r.start..r.end][p];
    Refuses(other, data, r.start + p);
  }

  /** The three shapes of a nine-byte derivative price. */
  function Signed(lead: Size, frac: Size): Reader
    requires lead > 0
  {
    BuiltIsValid(Shape(true, lead, frac, 0, 0));
    Build(Shape(true, lead, frac, 0, 0)).value
  }

  /** Each of the three refuses what is well formed for another: choosing the wrong one cannot pass quietly. */
  lemma DerivativeShapesAreDisjoint(data: seq<byte>, t: Text, r: Reader, other: Reader)
    requires r in {Signed(6, 2), Signed(5, 3), Signed(9, 0)} && other in {Signed(6, 2), Signed(5, 3), Signed(9, 0)}
    requires |data| == 9 && Fills(t, r) && data == t.Spelled()
    ensures ToI64Checked(other, data).Ok? <==> r == other
  {
    assert data[0..9] == data;
    if r == other {
      ReadsExactly(r, data, t);
    } else {
      OtherShapeRefuses(r, other, data, t);
    }
  }

  /** A leading plus sign is refused by every reader. */
  lemma PlusIsRefused(r: Reader, data: seq<byte>)
    requires Ordered(r) && r.start < r.end <= |data| && data[r.start] == PLUS
    ensures ToI64Checked(r, data).Err?
  {
    Refuses(r, data, r.start);
  }

  /** Leaving out the whole fraction leaves the point in the window, and nothing reads. */
  lemma UnusedFractionRefuses(c: Shape, data: seq<byte>)
    requires Build(c).Ok? && c.fractionSize > 0 && c.unusedTail == c.fractionSize && c.unusedHead <= c.integerSize
    requires c.integerSize < |data| && data[c.integerSize] == POINT
    ensures Valid(Build(c).value) && ToI64Checked(Build(c).value, data).Err?
  {
    BuiltIsValid(c);
    Refuses(Build(c).value, data, c.integerSize);
  }

  // ------------------------------------------------------------------------------------------------
  // A window that starts behind the point
  // ------------------------------------------------------------------------------------------------

  lemma PaddingDropped(clipped: seq<byte>, a: nat, n: nat)
    requires |clipped| <= n && a < n - |clipped|
    ensures var padded := PaddedTo(clipped, n);
            [ZERO] + padded[..a] + padded[a + 1..] == padded && padded[n - |clipped|..] == clipped
  {
  }

  lemma PaddingHasNoPoint(clipped: seq<byte>, n: nat, i: nat)
    requires |clipped| <= n && i < n && POINT !in clipped
    ensures PaddedTo(clipped, n)[i] != POINT
  {
  }

  lemma PaddingSqueezed(clipped: seq<byte>, padded: seq<byte>, a: nat, n: nat)
    requires |clipped| <= n && a < n - |clipped| && POINT !in clipped
    requires padded == PaddedTo(clipped, n)
    ensures LeWord(padded) < Pow256(n) && SqueezePoint(LeWord(padded), a, n) == Ok(LeWord(padded))
  {
    PaddingHasNoPoint(clipped, n, n - 1 - a);
    SqueezeDrops(padded, a);
    PaddingDropped(clipped, a, n);
  }

  /** The wrapped point index falls among the padding, where deleting a byte changes nothing, or off the
    * word. */
  lemma SqueezesBehind(clipped: seq<byte>, behind: nat, n: nat)
    requires 0 < |clipped| <= n <= 16 && POINT !in clipped && 0 < behind < 0x2000_0000_0000_0000
    ensures SqueezePadded(clipped, U64_LIMIT - behind, n) ==
            if behind + |clipped| <= n then Ok(clipped) else Err(InvalidPointIndex)
  {
    var start := n - |clipped|;
    if behind <= start {
      DivModUnique(U64_LIMIT - behind + start, U64_LIMIT, 1, start - behind);
      PaddingSqueezed(clipped, PaddedTo(clipped, n), start - behind, n);
      LeBytesOfWord(PaddedTo(clipped, n));
      PaddingDropped(clipped, start - behind, n);
    } else {
      WrapsNot(U64_LIMIT - behind + start);
    }
  }

  /** What the digits of a window come to when the point was expected `behind` bytes in front of it. */
  function Behind(window: seq<byte>, behind: nat): Result<seq<byte>, ParseErr> {
    if |window| > 16 then Err(Overflow)
    else if behind + |window| > Lanes(|window|) then Err(InvalidPointIndex)
    else Ok(window)
  }

  lemma PointsOutBehind(window: seq<byte>, behind: nat, idx: nat)
    requires window != [] && AllDigits(window) && 0 < behind < 0x2000_0000_0000_0000 && idx == U64_LIMIT - behind
    ensures PointOut(window, idx) == Behind(window, behind)
  {
    if |window| <= 16 {
      SqueezesBehind(window, behind, Lanes(|window|));
    }
  }

  lemma SignsPositive(r: Reader, clipped: seq<byte>, idx: nat, digits: Result<seq<byte>, ParseErr>)
    requires !IsNegative(r, clipped) && r.pointIdx == Some(idx) && PointOut(clipped, idx) == digits
    ensures ParseSigned(r, clipped) == WithSign(false, ParseDigits(digits))
  {
  }

  lemma BehindFits(window: seq<byte>, behind: nat)
    requires window != [] && AllDigits(window)
    ensures WithSign(false, ParseDigits(Behind(window, behind))) ==
            match Behind(window, behind) { case Ok(v) => Ok(DigitsValue(window)) case Err(e) => Err(e) }
  {
    if |window| <= 16 {
      SmallValue(window);
    }
  }

  lemma BehindIdx(c: Shape)
    requires Build(c).Ok? && c.Pointed() && c.unusedHead > c.integerSize
    ensures Build(c).value.pointIdx == Some(U64_LIMIT - (c.unusedHead - c.integerSize))
  {
    WrapsBelow(c.integerSize - c.unusedHead);
  }

  /** An unused head that swallows the point leaves a reader of fraction digits. Its point index has wrapped
    * round, and the digits are read all the same if the word has room for the bytes from the point on, read or
    * not; otherwise the field is refused. */
  lemma ReadsBehindThePoint(c: Shape, r: Reader, data: seq<byte>)
    requires Build(c) == Ok(r) && c.Pointed() && c.unusedHead > c.integerSize
    requires r.start <= r.end <= |data| && data[c.integerSize] == POINT && AllDigits(data[r.start..r.end])
    ensures Ordered(r)
    ensures var window := data[r.start..r.end];
            ToI64Checked(r, data) ==
            if |window| > 16 then Err(Overflow)
            else if r.end - c.integerSize > Lanes(|window|) then Err(InvalidPointIndex)
            else Ok(DigitsValue(window))
  {
    var window, behind := data[r.start..r.end], c.unusedHead - c.integerSize;
    BuiltIsValid(c);
    BehindIdx(c);
    ReadsWindowBehind(r, window, behind, U64_LIMIT - behind, Behind(window, behind));
    BehindFits(window, behind);
  }

  lemma DigitIsNoSign(r: Reader, window: seq<byte>)
    requires window != [] && IsDigit(window[0])
    ensures !IsNegative(r, window)
  {
  }

  lemma ReadsWindowBehind(r: Reader, window: seq<byte>, behind: nat, idx: nat, digits: Result<seq<byte>, ParseErr>)
    requires window != [] && IsDigit(window[0]) && AllDigits(window) && digits == Behind(window, behind)
    requires 0 < behind < 0x2000_0000_0000_0000 && idx == U64_LIMIT - behind && r.pointIdx == Some(idx)
    ensures ParseSigned(r, window) == WithSign(false, ParseDigits(digits))
  {
    DigitIsNoSign(r, window);
    PointsOutBehind(window, behind, idx);
    SignsPositive(r, window, idx, digits);
  }
}

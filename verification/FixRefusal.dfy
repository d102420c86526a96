/** What the framer answers to bytes that are no message: damaged, mislabelled, or not yet all there. */
module FixRefusal {
  import opened Wrappers
  import opened Bytes
  import opened Placement
  import opened FixFields
  import opened FixFrame
  import opened FrameBuffer

  // ------------------------------------------------------------------------------------------------
  // Once the header stands
  // ------------------------------------------------------------------------------------------------

  /** `8=begin<SOH>9=digits<SOH>` at the front, announcing a body of `n` bytes. */
  predicate Announces(buf: seq<byte>, begin: seq<byte>, digits: seq<byte>, n: nat) {
    var at := 2 + |begin|;
    var end := at + 3 + |digits|;
    && begin != [] && SOH !in begin && ParseU64(digits) == Some(n) && 0 < n <= 0x1_0000
    && ByteAt(buf, 0, 0x38) && ByteAt(buf, 1, 0x3D) && At(buf, 2, begin) && ByteAt(buf, at, 0x01)
    && ByteAt(buf, at + 1, 0x39) && ByteAt(buf, at + 2, 0x3D) && At(buf, at + 3, digits) && ByteAt(buf, end, 0x01)
  }

  /** Where the body ends. */
  function BodyEnd(begin: seq<byte>, digits: seq<byte>, n: nat): nat {
    |begin| + |digits| + n + 6
  }

  lemma ReadsAnnounced(buf: seq<byte>, begin: seq<byte>, digits: seq<byte>, n: nat)
    requires Announces(buf, begin, digits, n)
    ensures FrameAt(buf) == CheckTrailer(buf, Head(2 + |begin|, 5 + |begin| + |digits|, n))
  {
    IndexAfter(buf, 2, begin, SOH);
    LengthReads(buf, 3 + |begin|, digits, 5 + |begin| + |digits|, n);
  }

  /** The three digits of a trailer as the number they denote. */
  function ThreeValue(s: seq<byte>): int
    requires |s| == 3
  {
    100 * (s[0] as int - 0x30) + 10 * (s[1] as int - 0x30) + (s[2] as int - 0x30)
  }

  /** A trailer's shape: `10=`, three bytes, and the end of the field. */
  predicate TrailerShaped(buf: seq<byte>, start: nat)
    requires start + 7 <= |buf|
  {
    buf[start] == 0x31 && buf[start + 1] == 0x30 && buf[start + 2] == 0x3D && buf[start + 6] == 0x01
  }

  /** A sum as the error shows it. */
  function Shown(s: seq<byte>): nat
    requires |s| == 3 && AllDigits(s)
  {
    if ThreeValue(s) > 255 then 255 else ThreeValue(s)
  }

  lemma ThreeParsed(s: seq<byte>)
    requires |s| == 3
    ensures AllDigits(s) ==> 0 <= ThreeValue(s) < 1000 && ParseU64(s) == Some(ThreeValue(s))
    ensures !AllDigits(s) ==> ParseU64(s) == None
  {
    if AllDigits(s) {
      ThreeDigits(s);
    }
  }

  /** What the trailer says, the sum of the bytes before it being known. */
  lemma TrailerAnswer(buf: seq<byte>, h: Head, start: nat, sum: nat, s: seq<byte>)
    requires 2 <= h.beginEnd < h.digitsEnd && start == h.TrailerStart() && start + 7 <= |buf|
    requires sum == Checksum(buf[..start]) && s == buf[start + 3..start + 6]
    ensures CheckTrailer(buf, h) ==
            if buf[start - 1] != 0x01 then Err(BodyLength)
            else if !TrailerShaped(buf, start) || !AllDigits(s) then Err(Trailer)
            else if ThreeValue(s) != sum then Err(CheckSum(sum, Shown(s)))
            else Ok(Frame(start + 7, buf[2..h.beginEnd], buf[h.digitsEnd + 1..start]))
  {
    ThreeParsed(s);
  }

  /** The answer by its reasons, `sum` being what the trailer should say. */
  function Answer(buf: seq<byte>, begin: seq<byte>, n: nat, start: nat, sum: nat): Result<Frame, FixError>
    requires n < start && start + 7 <= |buf|
  {
    var s := buf[start + 3..start + 6];
    if buf[start - 1] != 0x01 then Err(BodyLength)
    else if !TrailerShaped(buf, start) || !AllDigits(s) then Err(Trailer)
    else if ThreeValue(s) != sum then Err(CheckSum(sum, Shown(s)))
    else Ok(Frame(start + 7, begin, buf[start - n..start]))
  }

  lemma AnswerIs(buf: seq<byte>, begin: seq<byte>, n: nat, h: Head, start: nat, sum: nat)
    requires 2 <= h.beginEnd < h.digitsEnd && start == h.TrailerStart() && start + 7 <= |buf| && n == h.bodyLen
    requires buf[2..h.beginEnd] == begin && sum == Checksum(buf[..start])
    ensures CheckTrailer(buf, h) == Answer(buf, begin, n, start, sum)
  {
    ThreeParsed(buf[start + 3..start + 6]);
    TrailerAnswer(buf, h, start, sum, buf[start + 3..start + 6]);
  }

  /** All the bytes announced are there: the answer is a frame or the reason there is none, and it is final. A
    * body must end its last field; the trailer must be `10=`, three digits and the end of the field; and the
    * digits must be the sum of every byte before the trailer, modulo 256. */
  lemma CompleteAnswer(buf: seq<byte>, begin: seq<byte>, digits: seq<byte>, n: nat)
    requires Announces(buf, begin, digits, n) && BodyEnd(begin, digits, n) + 7 <= |buf|
    ensures var start := BodyEnd(begin, digits, n);
            FrameAt(buf) == Answer(buf, begin, n, start, ByteSum(buf[..start]) % 256)
  {
    var start, h := BodyEnd(begin, digits, n), Head(2 + |begin|, 5 + |begin| + |digits|, n);
    ReadsAnnounced(buf, begin, digits, n);
    AtIsSlice(buf, 2, begin);
    ChecksumIsSum(buf[..start]);
    AnswerIs(buf, begin, n, h, start, Checksum(buf[..start]));
  }

  /** And until they are, the framer waits. */
  lemma WaitsForAnnounced(buf: seq<byte>, begin: seq<byte>, digits: seq<byte>, n: nat)
    requires Announces(buf, begin, digits, n)
    ensures FrameAt(buf) == Err(Incomplete) <==> |buf| < BodyEnd(begin, digits, n) + 7
  {
    ReadsAnnounced(buf, begin, digits, n);
    if BodyEnd(begin, digits, n) + 7 <= |buf| {
      CompleteAnswer(buf, begin, digits, n);
    }
  }

  // ------------------------------------------------------------------------------------------------
  // A message damaged in its trailer
  // ------------------------------------------------------------------------------------------------

  /** A message's head and body with another sum behind them. */
  function WithSum(m: Message, sum: nat): seq<byte> {
    RenderHead(m) + RenderTrailer(sum)
  }

  lemma HeadAnnounces(buf: seq<byte>, m: Message)
    requires At(buf, 0, RenderHead(m)) && WellFormed(m)
    ensures Announces(buf, m.begin, m.digits, |m.body|)
    ensures |RenderHead(m)| == BodyEnd(m.begin, m.digits, |m.body|) && buf[..|RenderHead(m)|] == RenderHead(m)
    ensures buf[|RenderHead(m)| - 1] == 0x01
  {
    HeadStands(buf, m);
    AtIsSlice(buf, 0, RenderHead(m));
    assert m.body[|m.body| - 1] == buf[HeadOf(m).BodyStart() + (|m.body| - 1)];
  }

  lemma SumStands(buf: seq<byte>, start: nat, sum: nat)
    requires sum < 1000 && At(buf, start, RenderTrailer(sum))
    ensures start + 7 <= |buf| && TrailerShaped(buf, start)
    ensures AllDigits(buf[start + 3..start + 6]) && ThreeValue(buf[start + 3..start + 6]) == sum
  {
    assert Pow10(3) == 1000;
    PaddedValue(sum, 3);
    AtSplit(buf, start, [ONE, ZERO, EQUALS], Padded(sum, 3) + [SOH]);
    ThreeBytes(buf, start, ONE, ZERO, EQUALS);
    AtSplit(buf, start + 3, Padded(sum, 3), [SOH]);
    AtOne(buf, start + 6, SOH);
    AtIsSlice(buf, start + 3, Padded(sum, 3));
    ThreeDigits(Padded(sum, 3));
  }

  lemma WrongAt(buf: seq<byte>, begin: seq<byte>, digits: seq<byte>, n: nat, start: nat, sum: nat)
    requires Announces(buf, begin, digits, n) && start == BodyEnd(begin, digits, n) && start + 7 <= |buf|
    requires buf[start - 1] == 0x01 && TrailerShaped(buf, start) && AllDigits(buf[start + 3..start + 6])
    requires ThreeValue(buf[start + 3..start + 6]) == sum && sum != ByteSum(buf[..start]) % 256
    ensures FrameAt(buf) == Err(CheckSum(ByteSum(buf[..start]) % 256, if sum > 255 then 255 else sum))
  {
    CompleteAnswer(buf, begin, digits, n);
    AnswerWrong(buf, begin, n, start, ByteSum(buf[..start]) % 256, sum);
  }

  lemma AnswerWrong(buf: seq<byte>, begin: seq<byte>, n: nat, start: nat, right: nat, sum: nat)
    requires n < start && start + 7 <= |buf|
    requires buf[start - 1] == 0x01 && TrailerShaped(buf, start) && AllDigits(buf[start + 3..start + 6])
    requires ThreeValue(buf[start + 3..start + 6]) == sum && sum != right
    ensures Answer(buf, begin, n, start, right) == Err(CheckSum(right, if sum > 255 then 255 else sum))
  {
  }

  /** A message with any other three-digit sum is refused with both sums, whatever follows it. */
  lemma WrongSumRefused(buf: seq<byte>, m: Message, sum: nat)
    requires WellFormed(m) && sum < 1000 && sum != ByteSum(RenderHead(m)) % 256 && At(buf, 0, WithSum(m, sum))
    ensures FrameAt(buf) == Err(CheckSum(ByteSum(RenderHead(m)) % 256, if sum > 255 then 255 else sum))
  {
    AtSplit(buf, 0, RenderHead(m), RenderTrailer(sum));
    HeadAnnounces(buf, m);
    SumStands(buf, |RenderHead(m)|, sum);
    WrongAt(buf, m.begin, m.digits, |m.body|, |RenderHead(m)|, sum);
  }

  // ------------------------------------------------------------------------------------------------
  // A header that cannot be one
  // ------------------------------------------------------------------------------------------------

  /** Bytes that do not begin with `8=` and at least one byte before the end of the field. */
  lemma BadBeginRefused(buf: seq<byte>)
    requires |buf| >= 1 && (buf[0] != 0x38 || (|buf| >= 2 && buf[1] != 0x3D) || (|buf| >= 3 && buf[2] == 0x01))
    ensures FrameAt(buf) == Err(BeginString)
  {
  }

  /** A BeginString that goes on past sixteen bytes without an end is given up; a shorter one is waited for. */
  lemma EndlessBegin(buf: seq<byte>)
    requires |buf| >= 2 && buf[0] == 0x38 && buf[1] == 0x3D && SOH !in buf[2..]
    ensures FrameAt(buf) == Err(if |buf| > 18 then BeginString else Incomplete)
  {
    assert forall i :: 2 <= i < |buf| ==> buf[i] == buf[2..][i - 2];
  }

  /** What stands behind `8=begin<SOH>`. */
  predicate Begins(buf: seq<byte>, begin: seq<byte>) {
    && begin != [] && SOH !in begin
    && ByteAt(buf, 0, 0x38) && ByteAt(buf, 1, 0x3D) && At(buf, 2, begin) && ByteAt(buf, 2 + |begin|, 0x01)
  }

  lemma ReadsBegun(buf: seq<byte>, begin: seq<byte>)
    requires Begins(buf, begin)
    ensures BeginEnd(buf) == Ok(2 + |begin|)
  {
    IndexAfter(buf, 2, begin, SOH);
  }

  /** The second field must be `9=`: one byte of it is waited for, anything else is refused. */
  lemma SecondField(buf: seq<byte>, begin: seq<byte>)
    requires Begins(buf, begin)
    ensures |buf| < |begin| + 5 ==> FrameAt(buf) == Err(Incomplete)
    ensures |buf| >= |begin| + 5 && (buf[|begin| + 3] != 0x39 || buf[|begin| + 4] != 0x3D) ==>
              FrameAt(buf) == Err(BodyLength)
  {
    ReadsBegun(buf, begin);
  }

  /** Its value must be one to nineteen digits, and a length from 1 to 65536. */
  lemma BadLengthRefused(buf: seq<byte>, begin: seq<byte>, text: seq<byte>)
    requires Begins(buf, begin) && ByteAt(buf, |begin| + 3, 0x39) && ByteAt(buf, |begin| + 4, 0x3D)
    requires At(buf, |begin| + 5, text) && SOH !in text && ByteAt(buf, |begin| + 5 + |text|, 0x01)
    requires text == [] || |text| > 19 || !AllDigits(text) || DigitsValue(text) == 0 || DigitsValue(text) > 65536
    ensures FrameAt(buf) == Err(BodyLength)
  {
    ReadsBegun(buf, begin);
    IndexAfter(buf, |begin| + 5, text, SOH);
    AtIsSlice(buf, |begin| + 5, text);
  }

  /** One that goes on past six bytes without an end is given up; a shorter one is waited for. */
  lemma EndlessLength(buf: seq<byte>, begin: seq<byte>)
    requires Begins(buf, begin) && ByteAt(buf, |begin| + 3, 0x39) && ByteAt(buf, |begin| + 4, 0x3D)
    requires SOH !in buf[|begin| + 5..]
    ensures FrameAt(buf) == Err(if |buf| > |begin| + 11 then BodyLength else Incomplete)
  {
    var at := |begin| + 5;
    ReadsBegun(buf, begin);
    assert forall i :: at <= i < |buf| ==> buf[i] == buf[at..][i - at];
  }

  // ------------------------------------------------------------------------------------------------
  // What a reader of the buffer hears
  // ------------------------------------------------------------------------------------------------

  /** A damaged message is an error at once, however much room the buffer has left. */
  lemma DamagedIsFailed(filled: seq<byte>, n: nat, m: Message, sum: nat)
    requires WellFormed(m) && sum < 1000 && sum != ByteSum(RenderHead(m)) % 256 && At(filled, 0, WithSum(m, sum))
    ensures PeekAt(filled, n) == Failed(CheckSum(ByteSum(RenderHead(m)) % 256, if sum > 255 then 255 else sum))
  {
    WrongSumRefused(filled, m, sum);
  }

  /** More bytes are asked for only while the message announced is not all there and there is room for them; a
    * full buffer that still has no message never will. */
  lemma AsksForMoreIff(filled: seq<byte>, n: nat, begin: seq<byte>, digits: seq<byte>, length: nat)
    requires Announces(filled, begin, digits, length) && |filled| <= n
    ensures PeekAt(filled, n) == More <==> |filled| < BodyEnd(begin, digits, length) + 7 && |filled| < n
    ensures |filled| < BodyEnd(begin, digits, length) + 7 && |filled| == n ==> PeekAt(filled, n) == Failed(BodyLength)
  {
    WaitsForAnnounced(filled, begin, digits, length);
  }
}

/** FIX framing: `8=begin<SOH>9=length<SOH>body10=sum<SOH>`. */
module FixFrame {
  import opened Wrappers
  import opened Bytes
  import opened Placement
  import opened FixFields

  const MAX_BODY_LENGTH: nat := 0x1_0000
  const TRAILER_LEN: nat := 7
  const EIGHT: byte := 0x38
  const NINE: byte := 0x39
  const ONE: byte := 0x31

  datatype FixError =
    | Incomplete | BeginString | BodyLength | Trailer
    | CheckSum(expected: nat, found: nat)

  /** The byte sum in wrapping arithmetic. */
  function Checksum(s: seq<byte>): (c: nat)
    ensures c < 256
  {
    if s == [] then 0 else (Checksum(s[..|s| - 1]) + s[|s| - 1]) % 256
  }

  function ByteSum(s: seq<byte>): nat {
    if s == [] then 0 else ByteSum(s[..|s| - 1]) + s[|s| - 1]
  }

  lemma AddedModulo(a: nat, b: nat)
    ensures (a % 256 + b) % 256 == (a + b) % 256
  {
  }

  /** It is the sum of all the bytes modulo 256, as section "CheckSum (10)" of FIX 4.4 has it. */
  lemma {:induction false} ChecksumIsSum(s: seq<byte>)
    ensures Checksum(s) == ByteSum(s) % 256
  {
    if s != [] {
      ChecksumIsSum(s[..|s| - 1]);
      AddedModulo(ByteSum(s[..|s| - 1]), s[|s| - 1]);
    }
  }

  // ------------------------------------------------------------------------------------------------
  // The framer
  // ------------------------------------------------------------------------------------------------

  /** Where the header's parts end, and how long the body says it is. */
  datatype Head = Head(beginEnd: nat, digitsEnd: nat, bodyLen: nat) {
    function BodyStart(): nat { digitsEnd + 1 }
    function TrailerStart(): nat { digitsEnd + 1 + bodyLen }
    function Total(): nat { digitsEnd + 1 + bodyLen + TRAILER_LEN }
  }

  datatype Frame = Frame(total: nat, begin: seq<byte>, body: seq<byte>)

  predicate Starts(buf: seq<byte>, pos: nat, tag: byte)
    requires pos + 2 <= |buf|
  {
    buf[pos] == tag && buf[pos + 1] == EQUALS
  }

  /** The end of the BeginString. */
  function BeginEnd(buf: seq<byte>): (r: Result<nat, FixError>)
    ensures r.Ok? ==> 2 < r.value < |buf|
  {
    if |buf| == 0 then Err(Incomplete)
    else if |buf| < 2 then Err(if buf[0] == EIGHT then Incomplete else BeginString)
    else if !Starts(buf, 0, EIGHT) then Err(BeginString)
    else
      var end := IndexFrom(buf, 2, SOH);
      if end == |buf| then Err(if |buf| > 2 + 16 then BeginString else Incomplete)
      else if end == 2 then Err(BeginString)
      else Ok(end)
  }

  /** The BodyLength field, which starts at `pos`. */
  function LengthField(buf: seq<byte>, pos: nat): (r: Result<Head, FixError>)
    requires 0 < pos <= |buf|
    ensures r.Ok? ==> pos < r.value.digitsEnd < |buf|
  {
    if |buf| - pos < 2 then Err(Incomplete)
    else if !Starts(buf, pos, NINE) then Err(BodyLength)
    else
      var end := IndexFrom(buf, pos + 2, SOH);
      if end == |buf| then Err(if |buf| - pos > 2 + 6 then BodyLength else Incomplete)
      else
        match ParseU64(buf[pos + 2..end])
        case None => Err(BodyLength)
        case Some(n) => if n == 0 || n > MAX_BODY_LENGTH then Err(BodyLength) else Ok(Head(pos - 1, end, n))
  }

  /** The body's boundary and the trailer, once all of it is there. */
  function CheckTrailer(buf: seq<byte>, h: Head): Result<Frame, FixError>
    requires 2 <= h.beginEnd < h.digitsEnd
  {
    var start, total := h.TrailerStart(), h.Total();
    if |buf| < total then Err(Incomplete)
    else if buf[start - 1] != SOH then Err(BodyLength)
    else if buf[start] != ONE || buf[start + 1] != ZERO || buf[start + 2] != EQUALS then Err(Trailer)
    else if buf[start + 6] != SOH then Err(Trailer)
    else
      match ParseU64(buf[start + 3..start + 6])
      case None => Err(Trailer)
      case Some(found) =>
        var expected := Checksum(buf[..start]);
        if found > 255 || found != expected then Err(CheckSum(expected, if found > 255 then 255 else found))
        else Ok(Frame(total, buf[2..h.beginEnd], buf[h.BodyStart()..start]))
  }

  /** `frame`. */
  function FrameAt(buf: seq<byte>): Result<Frame, FixError> {
    match BeginEnd(buf)
    case Err(e) => Err(e)
    case Ok(beginEnd) =>
      match LengthField(buf, beginEnd + 1)
      case Err(e) => Err(e)
      case Ok(h) => CheckTrailer(buf, h)
  }

  // ------------------------------------------------------------------------------------------------
  // Messages
  // ------------------------------------------------------------------------------------------------

  /** A message by its parts: the length is the digits as they were written. */
  datatype Message = Message(begin: seq<byte>, digits: seq<byte>, body: seq<byte>)

  predicate WellFormed(m: Message) {
    && m.begin != [] && SOH !in m.begin
    && ParseU64(m.digits) == Some(|m.body|)
    && 0 < |m.body| <= MAX_BODY_LENGTH && m.body[|m.body| - 1] == SOH
  }

  /** Everything before the trailer. */
  function RenderHead(m: Message): seq<byte> {
    [EIGHT, EQUALS] + (m.begin + ([SOH, NINE, EQUALS] + (m.digits + ([SOH] + m.body))))
  }

  function RenderTrailer(sum: nat): seq<byte> {
    [ONE, ZERO, EQUALS] + (Padded(sum, 3) + [SOH])
  }

  function Render(m: Message): seq<byte> {
    RenderHead(m) + RenderTrailer(Checksum(RenderHead(m)))
  }

  function HeadOf(m: Message): Head {
    var beginEnd := 2 + |m.begin|;
    Head(beginEnd, beginEnd + 3 + |m.digits|, |m.body|)
  }

  /** The header and the body stand at the front. */
  predicate HeadAt(buf: seq<byte>, m: Message) {
    var h := HeadOf(m);
    && ByteAt(buf, 0, EIGHT) && ByteAt(buf, 1, EQUALS) && At(buf, 2, m.begin)
    && ByteAt(buf, h.beginEnd, SOH) && ByteAt(buf, h.beginEnd + 1, NINE) && ByteAt(buf, h.beginEnd + 2, EQUALS)
    && At(buf, h.beginEnd + 3, m.digits) && ByteAt(buf, h.digitsEnd, SOH) && At(buf, h.BodyStart(), m.body)
  }

  lemma ThreeBytes(buf: seq<byte>, pos: nat, a: byte, b: byte, c: byte)
    requires At(buf, pos, [a, b, c])
    ensures ByteAt(buf, pos, a) && ByteAt(buf, pos + 1, b) && ByteAt(buf, pos + 2, c)
  {
    var t := [a, b, c];
    assert t[0] == a && t[1] == b && t[2] == c;
  }

  lemma HeadStands(buf: seq<byte>, m: Message)
    requires At(buf, 0, RenderHead(m))
    ensures HeadAt(buf, m) && |RenderHead(m)| == HeadOf(m).TrailerStart()
  {
    var h := HeadOf(m);
    var afterDigits := [SOH] + m.body;
    var afterBegin := [SOH, NINE, EQUALS] + (m.digits + afterDigits);
    AtSplit(buf, 0, [EIGHT, EQUALS], m.begin + afterBegin);
    assert [EIGHT, EQUALS][0] == EIGHT && [EIGHT, EQUALS][1] == EQUALS;
    AtSplit(buf, 2, m.begin, afterBegin);
    AtSplit(buf, h.beginEnd, [SOH, NINE, EQUALS], m.digits + afterDigits);
    ThreeBytes(buf, h.beginEnd, SOH, NINE, EQUALS);
    AtSplit(buf, h.beginEnd + 3, m.digits, afterDigits);
    AtSplit(buf, h.digitsEnd, [SOH], m.body);
    AtOne(buf, h.digitsEnd, SOH);
  }

  predicate TrailerAt(buf: seq<byte>, start: nat, sum: nat) {
    && ByteAt(buf, start, ONE) && ByteAt(buf, start + 1, ZERO) && ByteAt(buf, start + 2, EQUALS)
    && At(buf, start + 3, Padded(sum, 3)) && ByteAt(buf, start + 6, SOH)
  }

  lemma SumDigits(sum: nat)
    requires sum < 256
    ensures |Padded(sum, 3)| == 3 && ParseU64(Padded(sum, 3)) == Some(sum)
  {
    assert Pow10(3) == 1000;
    PaddedValue(sum, 3);
  }

  lemma TrailerStands(buf: seq<byte>, start: nat, sum: nat)
    requires sum < 256 && At(buf, start, RenderTrailer(sum))
    ensures TrailerAt(buf, start, sum) && |RenderTrailer(sum)| == TRAILER_LEN
  {
    SumDigits(sum);
    AtSplit(buf, start, [ONE, ZERO, EQUALS], Padded(sum, 3) + [SOH]);
    ThreeBytes(buf, start, ONE, ZERO, EQUALS);
    AtSplit(buf, start + 3, Padded(sum, 3), [SOH]);
    AtOne(buf, start + 6, SOH);
  }

  lemma ReadsHead(buf: seq<byte>, m: Message)
    requires HeadAt(buf, m) && WellFormed(m)
    ensures BeginEnd(buf) == Ok(HeadOf(m).beginEnd)
    ensures HeadOf(m).beginEnd + 1 <= |buf| && LengthField(buf, HeadOf(m).beginEnd + 1) == Ok(HeadOf(m))
  {
    IndexAfter(buf, 2, m.begin, SOH);
    ReadsLength(buf, m);
  }

  lemma LengthReads(buf: seq<byte>, pos: nat, digits: seq<byte>, end: nat, n: nat)
    requires pos > 0 && ByteAt(buf, pos, NINE) && ByteAt(buf, pos + 1, EQUALS) && At(buf, pos + 2, digits)
    requires end == pos + 2 + |digits| && ByteAt(buf, end, SOH)
    requires ParseU64(digits) == Some(n) && 0 < n <= MAX_BODY_LENGTH
    ensures LengthField(buf, pos) == Ok(Head(pos - 1, end, n))
  {
    DigitsHaveNoSoh(digits);
    IndexAfter(buf, pos + 2, digits, SOH);
    AtIsSlice(buf, pos + 2, digits);
  }

  lemma ReadsLength(buf: seq<byte>, m: Message)
    requires HeadAt(buf, m) && WellFormed(m)
    ensures HeadOf(m).beginEnd + 1 <= |buf| && LengthField(buf, HeadOf(m).beginEnd + 1) == Ok(HeadOf(m))
  {
    LengthReads(buf, HeadOf(m).beginEnd + 1, m.digits, HeadOf(m).digitsEnd, |m.body|);
  }

  lemma DigitsHaveNoSoh(s: seq<byte>)
    requires ParseU64(s).Some?
    ensures SOH !in s
  {
  }

  lemma MessageStands(buf: seq<byte>, m: Message)
    requires At(buf, 0, Render(m))
    ensures HeadAt(buf, m) && |Render(m)| == HeadOf(m).Total() <= |buf|
    ensures buf[..HeadOf(m).TrailerStart()] == RenderHead(m)
    ensures TrailerAt(buf, HeadOf(m).TrailerStart(), Checksum(RenderHead(m)))
  {
    var sum := Checksum(RenderHead(m));
    AtSplit(buf, 0, RenderHead(m), RenderTrailer(sum));
    HeadStands(buf, m);
    TrailerStands(buf, HeadOf(m).TrailerStart(), sum);
    AtIsSlice(buf, 0, RenderHead(m));
  }

  lemma TrailerParts(buf: seq<byte>, m: Message, h: Head, sum: nat)
    requires HeadAt(buf, m) && WellFormed(m) && h == HeadOf(m) && sum < 256 && TrailerAt(buf, h.TrailerStart(), sum)
    ensures h.Total() <= |buf| && buf[h.TrailerStart() - 1] == SOH
    ensures ParseU64(buf[h.TrailerStart() + 3..h.TrailerStart() + 6]) == Some(sum)
    ensures buf[2..h.beginEnd] == m.begin && buf[h.BodyStart()..h.TrailerStart()] == m.body
  {
    assert m.body[|m.body| - 1] == buf[h.BodyStart() + (|m.body| - 1)];
    SumDigits(sum);
    AtIsSlice(buf, h.TrailerStart() + 3, Padded(sum, 3));
    AtIsSlice(buf, 2, m.begin);
    AtIsSlice(buf, h.BodyStart(), m.body);
  }

  lemma ReadsTrailer(buf: seq<byte>, m: Message)
    requires At(buf, 0, Render(m)) && WellFormed(m)
    ensures CheckTrailer(buf, HeadOf(m)) == Ok(Frame(|Render(m)|, m.begin, m.body))
  {
    MessageStands(buf, m);
    TrailerParts(buf, m, HeadOf(m), Checksum(RenderHead(m)));
  }

  /** A well-formed message at the front of a buffer is framed as exactly its own bytes, whatever follows. */
  lemma FramesMessage(buf: seq<byte>, m: Message)
    requires At(buf, 0, Render(m)) && WellFormed(m)
    ensures FrameAt(buf) == Ok(Frame(|Render(m)|, m.begin, m.body))
  {
    MessageStands(buf, m);
    ReadsHead(buf, m);
    ReadsTrailer(buf, m);
  }

  // ------------------------------------------------------------------------------------------------
  // Nothing else is framed
  // ------------------------------------------------------------------------------------------------

  lemma ThreeDigitsUnique(s: seq<byte>, v: nat)
    requires |s| == 3 && AllDigits(s) && DigitsValue(s) == v
    ensures v < 1000 && s == Padded(v, 3)
  {
    var p := Padded(v, 3);
    assert Pow10(3) == 1000;
    DigitsValueBound(s);
    PaddedValue(v, 3);
    ThreeDigits(s);
    ThreeDigits(p);
    SameThree(s[0] - ZERO, s[1] - ZERO, s[2] - ZERO, p[0] - ZERO, p[1] - ZERO, p[2] - ZERO);
  }

  lemma SameThree(a: int, b: int, c: int, x: int, y: int, z: int)
    requires 0 <= a < 10 && 0 <= b < 10 && 0 <= c < 10 && 0 <= x < 10 && 0 <= y < 10 && 0 <= z < 10
    requires 100 * a + 10 * b + c == 100 * x + 10 * y + z
    ensures a == x && b == y && c == z
  {
  }

  lemma ThreeDigits(s: seq<byte>)
    requires |s| == 3 && AllDigits(s)
    ensures DigitsValue(s) == 100 * (s[0] - ZERO) + 10 * (s[1] - ZERO) + (s[2] - ZERO)
  {
    assert s[..2][..1] == s[..1] && s[..1][..0] == [];
    assert DigitsValue(s[..1]) == s[0] - ZERO;
    assert DigitsValue(s[..2]) == 10 * DigitsValue(s[..1]) + (s[1] - ZERO);
  }

  /** The message a frame was cut from. */
  function MessageOf(buf: seq<byte>, h: Head): Message
    requires 2 <= h.beginEnd <= |buf| && h.beginEnd + 3 <= h.digitsEnd < |buf| && h.TrailerStart() <= |buf|
  {
    Message(buf[2..h.beginEnd], buf[h.beginEnd + 3..h.digitsEnd], buf[h.BodyStart()..h.TrailerStart()])
  }

  lemma HeadIsRendered(buf: seq<byte>, h: Head)
    requires 2 <= h.beginEnd && h.beginEnd + 3 <= h.digitsEnd && h.TrailerStart() <= |buf|
    requires ByteAt(buf, 0, EIGHT) && ByteAt(buf, 1, EQUALS) && ByteAt(buf, h.beginEnd, SOH)
    requires ByteAt(buf, h.beginEnd + 1, NINE) && ByteAt(buf, h.beginEnd + 2, EQUALS) && ByteAt(buf, h.digitsEnd, SOH)
    ensures buf[..h.TrailerStart()] == RenderHead(MessageOf(buf, h))
  {
    var m := MessageOf(buf, h);
    assert buf[..2] == [EIGHT, EQUALS];
    assert buf[h.beginEnd..h.beginEnd + 3] == [SOH, NINE, EQUALS];
    assert buf[h.digitsEnd..h.digitsEnd + 1] == [SOH];
    Cut5(buf, h);
  }

  lemma Cut5(buf: seq<byte>, h: Head)
    requires 2 <= h.beginEnd && h.beginEnd + 3 <= h.digitsEnd && h.TrailerStart() <= |buf|
    ensures buf[..h.TrailerStart()] ==
            buf[..2] + (buf[2..h.beginEnd] + (buf[h.beginEnd..h.beginEnd + 3] +
            (buf[h.beginEnd + 3..h.digitsEnd] +
            (buf[h.digitsEnd..h.digitsEnd + 1] + buf[h.BodyStart()..h.TrailerStart()]))))
  {
    Cut4(buf, h.beginEnd, h.beginEnd + 3, h.digitsEnd, h.TrailerStart());
    CutFront(buf, h.beginEnd, h.TrailerStart());
  }

  lemma CutFront(buf: seq<byte>, b: nat, e: nat)
    requires 2 <= b <= e <= |buf|
    ensures buf[..e] == buf[..2] + (buf[2..b] + buf[b..e])
  {
  }

  lemma Cut4(buf: seq<byte>, b: nat, c: nat, d: nat, e: nat)
    requires b <= c <= d < e <= |buf|
    ensures buf[b..e] == buf[b..c] + (buf[c..d] + (buf[d..d + 1] + buf[d + 1..e]))
  {
    Cut(buf, d, d + 1, e);
    Cut(buf, c, d, e);
    Cut(buf, b, c, e);
  }

  lemma Cut(buf: seq<byte>, i: nat, j: nat, k: nat)
    requires i <= j <= k <= |buf|
    ensures buf[i..k] == buf[i..j] + buf[j..k]
  {
  }

  lemma TrailerIsRendered(buf: seq<byte>, start: nat, sum: nat)
    requires start + TRAILER_LEN <= |buf| && sum < 256
    requires ByteAt(buf, start, ONE) && ByteAt(buf, start + 1, ZERO) && ByteAt(buf, start + 2, EQUALS)
    requires ByteAt(buf, start + 6, SOH) && ParseU64(buf[start + 3..start + 6]) == Some(sum)
    ensures buf[start..start + TRAILER_LEN] == RenderTrailer(sum)
  {
    ThreeDigitsUnique(buf[start + 3..start + 6], sum);
    assert buf[start..start + 3] == [ONE, ZERO, EQUALS] && buf[start + 6..start + 7] == [SOH];
    Cut(buf, start + 3, start + 6, start + 7);
    Cut(buf, start, start + 3, start + 7);
  }

  /** What the framer has looked at, once it has framed. */
  predicate Framed(buf: seq<byte>, h: Head) {
    && 2 < h.beginEnd && h.beginEnd + 3 <= h.digitsEnd && h.Total() <= |buf|
    && ByteAt(buf, 0, EIGHT) && ByteAt(buf, 1, EQUALS) && ByteAt(buf, h.beginEnd, SOH)
    && ByteAt(buf, h.beginEnd + 1, NINE) && ByteAt(buf, h.beginEnd + 2, EQUALS) && ByteAt(buf, h.digitsEnd, SOH)
    && (forall i :: 2 <= i < h.beginEnd ==> buf[i] != SOH)
    && ParseU64(buf[h.beginEnd + 3..h.digitsEnd]) == Some(h.bodyLen) && 0 < h.bodyLen <= MAX_BODY_LENGTH
  }

  predicate Closed(buf: seq<byte>, start: nat) {
    && 0 < start && start + TRAILER_LEN <= |buf| && ByteAt(buf, start - 1, SOH)
    && ByteAt(buf, start, ONE) && ByteAt(buf, start + 1, ZERO) && ByteAt(buf, start + 2, EQUALS)
    && ByteAt(buf, start + 6, SOH) && ParseU64(buf[start + 3..start + 6]) == Some(Checksum(buf[..start]))
  }

  lemma FramedParts(buf: seq<byte>) returns (h: Head)
    requires FrameAt(buf).Ok?
    ensures Framed(buf, h) && Closed(buf, h.TrailerStart())
    ensures FrameAt(buf).value == Frame(h.Total(), buf[2..h.beginEnd], buf[h.BodyStart()..h.TrailerStart()])
  {
    h := LengthField(buf, BeginEnd(buf).value + 1).value;
  }

  lemma FramedIsRendered(buf: seq<byte>, h: Head)
    requires Framed(buf, h) && Closed(buf, h.TrailerStart())
    ensures buf[..h.Total()] == Render(MessageOf(buf, h))
  {
    var start := h.TrailerStart();
    HeadIsRendered(buf, h);
    TrailerIsRendered(buf, start, Checksum(buf[..start]));
    Cut(buf, 0, start, h.Total());
    assert buf[0..start] == buf[..start] && buf[0..h.Total()] == buf[..h.Total()];
  }

  lemma FramedIsWellFormed(buf: seq<byte>, h: Head)
    requires Framed(buf, h) && Closed(buf, h.TrailerStart())
    ensures WellFormed(MessageOf(buf, h))
  {
    BeginHasNoSoh(buf, h.beginEnd);
    assert buf[h.BodyStart()..h.TrailerStart()][h.bodyLen - 1] == buf[h.TrailerStart() - 1];
  }

  lemma FrontStands(buf: seq<byte>, text: seq<byte>, n: nat)
    requires n <= |buf| && buf[..n] == text
    ensures At(buf, 0, text) && |text| == n
  {
  }

  /** Whatever is framed is a well-formed message: the bytes framed are its rendering, length, checksum and
    * all, and the parts handed out are its parts. */
  lemma FramesOnlyMessages(buf: seq<byte>) returns (m: Message)
    requires FrameAt(buf).Ok?
    ensures WellFormed(m) && At(buf, 0, Render(m))
    ensures FrameAt(buf).value == Frame(|Render(m)|, m.begin, m.body)
  {
    var h := FramedParts(buf);
    m := MessageOf(buf, h);
    FramedIsRendered(buf, h);
    FramedIsWellFormed(buf, h);
    FrontStands(buf, Render(m), h.Total());
  }

  lemma BeginHasNoSoh(buf: seq<byte>, end: nat)
    requires 2 <= end <= |buf| && forall i :: 2 <= i < end ==> buf[i] != SOH
    ensures SOH !in buf[2..end]
  {
  }

  // ------------------------------------------------------------------------------------------------
  // Messages that arrive in pieces
  // ------------------------------------------------------------------------------------------------

  /** Messages that every prefix of which the framer waits for. */
  predicate Waitable(m: Message) {
    |m.begin| <= 16 && |m.digits| <= 6
  }

  lemma PrefixPart(buf: seq<byte>, whole: seq<byte>, pos: nat, text: seq<byte>)
    requires At(whole, 0, buf) && At(whole, pos, text) && pos <= |buf|
    ensures pos + |text| <= |buf| ==> At(buf, pos, text)
    ensures pos + |text| > |buf| ==> At(buf, pos, text[..|buf| - pos])
  {
    forall i | 0 <= i < |text| && pos + i < |buf| ensures text[i] == buf[pos + i] {
      assert buf[pos + i] == whole[0 + (pos + i)];
    }
  }

  lemma PrefixByte(buf: seq<byte>, whole: seq<byte>, i: nat)
    requires At(whole, 0, buf) && i < |buf|
    ensures buf[i] == whole[i]
  {
    assert buf[i] == whole[0 + i];
  }

  /** A prefix that stops inside the BeginString, or before it. */
  lemma StopsInBegin(buf: seq<byte>, m: Message, whole: seq<byte>)
    requires HeadAt(whole, m) && WellFormed(m) && At(whole, 0, buf) && |buf| <= HeadOf(m).beginEnd
    ensures BeginEnd(buf) == Err(if |buf| > 18 then BeginString else Incomplete)
  {
    if |buf| >= 1 {
      PrefixByte(buf, whole, 0);
    }
    if |buf| >= 2 {
      PrefixByte(buf, whole, 1);
      PrefixPart(buf, whole, 2, m.begin);
      IndexAfter(buf, 2, m.begin[..|buf| - 2], SOH);
    }
  }

  /** One that has all of it, and stops inside the BodyLength. */
  lemma StopsInLength(buf: seq<byte>, m: Message, whole: seq<byte>)
    requires HeadAt(whole, m) && WellFormed(m) && At(whole, 0, buf)
    requires HeadOf(m).beginEnd < |buf| <= HeadOf(m).digitsEnd
    ensures BeginEnd(buf) == Ok(HeadOf(m).beginEnd)
    ensures LengthField(buf, HeadOf(m).beginEnd + 1) ==
            Err(if |buf| - (HeadOf(m).beginEnd + 1) > 8 then BodyLength else Incomplete)
  {
    var h := HeadOf(m);
    ReadsBegin(buf, m, whole);
    if |buf| >= h.beginEnd + 3 {
      PrefixByte(buf, whole, h.beginEnd + 1);
      PrefixByte(buf, whole, h.beginEnd + 2);
      PrefixPart(buf, whole, h.beginEnd + 3, m.digits);
      DigitsHaveNoSoh(m.digits);
      IndexAfter(buf, h.beginEnd + 3, m.digits[..|buf| - (h.beginEnd + 3)], SOH);
    }
  }

  lemma ReadsBegin(buf: seq<byte>, m: Message, whole: seq<byte>)
    requires HeadAt(whole, m) && WellFormed(m) && At(whole, 0, buf) && HeadOf(m).beginEnd < |buf|
    ensures BeginEnd(buf) == Ok(HeadOf(m).beginEnd)
  {
    PrefixByte(buf, whole, 0);
    PrefixByte(buf, whole, 1);
    PrefixPart(buf, whole, 2, m.begin);
    PrefixByte(buf, whole, HeadOf(m).beginEnd);
    IndexAfter(buf, 2, m.begin, SOH);
  }

  lemma ReadsPrefixLength(buf: seq<byte>, m: Message, whole: seq<byte>)
    requires HeadAt(whole, m) && WellFormed(m) && At(whole, 0, buf) && HeadOf(m).digitsEnd < |buf|
    ensures LengthField(buf, HeadOf(m).beginEnd + 1) == Ok(HeadOf(m))
  {
    var h := HeadOf(m);
    PrefixByte(buf, whole, h.beginEnd + 1);
    PrefixByte(buf, whole, h.beginEnd + 2);
    PrefixPart(buf, whole, h.beginEnd + 3, m.digits);
    PrefixByte(buf, whole, h.digitsEnd);
    LengthReads(buf, h.beginEnd + 1, m.digits, h.digitsEnd, |m.body|);
  }

  /** One that has the header, and stops before the end. */
  lemma StopsInBody(buf: seq<byte>, m: Message, whole: seq<byte>)
    requires HeadAt(whole, m) && WellFormed(m) && At(whole, 0, buf)
    requires HeadOf(m).digitsEnd < |buf| < HeadOf(m).Total()
    ensures FrameAt(buf) == Err(Incomplete)
  {
    ReadsBegin(buf, m, whole);
    ReadsPrefixLength(buf, m, whole);
  }

  /** What the framer says of a proper prefix. */
  lemma PrefixOutcome(m: Message, k: nat)
    requires WellFormed(m) && k < |Render(m)|
    ensures FrameAt(Render(m)[..k]) ==
            Err(if 18 < k <= 2 + |m.begin| then BeginString
                else if 3 + |m.begin| + 8 < k <= 5 + |m.begin| + |m.digits| then BodyLength
                else Incomplete)
  {
    var whole, buf := Render(m), Render(m)[..k];
    MessageStands(whole, m);
    assert At(whole, 0, buf);
    if k <= HeadOf(m).beginEnd {
      StopsInBegin(buf, m, whole);
    } else if k <= HeadOf(m).digitsEnd {
      StopsInLength(buf, m, whole);
    } else {
      StopsInBody(buf, m, whole);
    }
  }

  ghost predicate WaitsAtEveryCut(m: Message) {
    forall k :: 0 <= k < |Render(m)| ==> FrameAt(Render(m)[..k]) == Err(Incomplete)
  }

  lemma WaitableWaits(m: Message)
    requires WellFormed(m) && Waitable(m)
    ensures WaitsAtEveryCut(m)
  {
    forall k | 0 <= k < |Render(m)| ensures FrameAt(Render(m)[..k]) == Err(Incomplete) {
      PrefixOutcome(m, k);
    }
  }

  lemma RefusedAt(m: Message, k: nat)
    requires k < |Render(m)| && FrameAt(Render(m)[..k]) != Err(Incomplete)
    ensures !WaitsAtEveryCut(m)
  {
  }

  /** Framing does not depend on where the stream was cut exactly for messages whose BeginString is at most
    * sixteen bytes and whose BodyLength is at most six: these are waited for at every cut, any other is
    * refused at some. */
  lemma WaitsAtEveryCutIff(m: Message)
    requires WellFormed(m)
    ensures WaitsAtEveryCut(m) <==> Waitable(m)
  {
    if Waitable(m) {
      WaitableWaits(m);
    } else {
      MessageStands(Render(m), m);
      var k := if |m.begin| > 16 then 2 + |m.begin| else 5 + |m.begin| + |m.digits|;
      PrefixOutcome(m, k);
      RefusedAt(m, k);
    }
  }
}

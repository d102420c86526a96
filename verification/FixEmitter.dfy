/** The outbound half of a FIX session: one message built per call, one sequence number per message. */
module FixEmitter {
  import opened Wrappers
  import opened Bytes
  import opened Calendar
  import opened UtcTime
  import opened FixFields
  import opened FixFrame
  import opened FixWriter

  const MAX_EMIT_LEN: nat := 4096
  const MSG_TYPE: nat := 35
  const SENDER_COMP_ID: nat := 49
  const TARGET_COMP_ID: nat := 56
  const MSG_SEQ_NUM: nat := 34
  const SENDING_TIME: nat := 52

  /** Who is speaking to whom, and in which version. */
  datatype Session = Session(begin: seq<byte>, sender: seq<byte>, target: seq<byte>)

  /** The standard header and then the fields of the message itself. */
  function HeaderFields(s: Session, msgType: seq<byte>, seqNum: nat, now: nat): seq<Field> {
    [Field(MSG_TYPE, msgType), Field(SENDER_COMP_ID, s.sender), Field(TARGET_COMP_ID, s.target),
     Field(MSG_SEQ_NUM, Decimal(seqNum)), Field(SENDING_TIME, SendingTime(now))]
  }

  function AllFields(s: Session, msgType: seq<byte>, seqNum: nat, now: nat, fields: seq<Field>): seq<Field> {
    HeaderFields(s, msgType, seqNum, now) + fields
  }

  /** The message built around a body. */
  function Around(begin: seq<byte>, body: seq<byte>): Message {
    Message(begin, Decimal(|body|), body)
  }

  function Built(s: Session, msgType: seq<byte>, seqNum: nat, now: nat, fields: seq<Field>): Message {
    Around(s.begin, RenderFields(AllFields(s, msgType, seqNum, now, fields)))
  }

  // ------------------------------------------------------------------------------------------------
  // The builder
  // ------------------------------------------------------------------------------------------------

  lemma {:induction false} RenderMore(a: seq<Field>, b: seq<Field>)
    ensures RenderFields(a + b) == RenderFields(a) + RenderFields(b)
    decreases |a|
  {
    if a == [] {
      assert a + b == b;
    } else {
      assert (a + b)[1..] == a[1..] + b;
      RenderMore(a[1..], b);
      Assoc(RenderField(a[0]), RenderFields(a[1..]), RenderFields(b));
    }
  }

  lemma Assoc(a: seq<byte>, b: seq<byte>, c: seq<byte>)
    ensures (a + b) + c == a + (b + c)
  {
  }

  lemma RenderOne(f: Field)
    ensures RenderFields([f]) == RenderField(f)
  {
    assert [f][1..] == [];
    assert RenderField(f) + [] == RenderField(f);
  }

  /** Each field behind the others, as a builder's closure writes them. */
  method WriteFields(w: Writer, fields: seq<Field>)
    requires w.Valid()
    modifies w`len, w`full, w.buf
    ensures w.Valid() && (w.full <==> old(w.full) || old(w.len) + |RenderFields(fields)| > w.buf.Length)
    ensures !w.full ==> w.Text() == old(w.Text()) + RenderFields(fields)
  {
    ghost var text := w.Text();
    assert text + [] == text;
    var i := 0;
    while i < |fields|
      invariant 0 <= i <= |fields| && w.Valid()
      invariant w.full <==> old(w.full) || old(w.len) + |RenderFields(fields[..i])| > w.buf.Length
      invariant !w.full ==> w.Text() == text + RenderFields(fields[..i])
    {
      assert fields[..i + 1] == fields[..i] + [fields[i]];
      RenderMore(fields[..i], [fields[i]]);
      RenderOne(fields[i]);
      Assoc(text, RenderFields(fields[..i]), RenderField(fields[i]));
      w.Tag(fields[i].tag, fields[i].value);
      i := i + 1;
    }
    assert fields[..i] == fields;
  }

  /** What stands in front of the trailer. */
  method WriteHead(w: Writer, begin: seq<byte>, body: seq<byte>)
    requires w.Valid() && w.Text() == [] && !w.full
    modifies w`len, w`full, w.buf
    ensures w.Valid() && (w.full <==> |RenderHead(Around(begin, body))| > w.buf.Length)
    ensures !w.full ==> w.Text() == RenderHead(Around(begin, body))
  {
    w.Bytes([EIGHT, EQUALS]);
    w.Bytes(begin);
    w.Byte(SOH);
    w.TagU64(9, |body|);
    w.Bytes(body);
    HeadText(begin, body);
    assert [] + [EIGHT, EQUALS] == [EIGHT, EQUALS];
  }

  lemma LengthText(digits: seq<byte>)
    ensures RenderField(Field(9, digits)) == [NINE, EQUALS] + (digits + [SOH])
  {
    assert Decimal(9) == [NINE] && [NINE, EQUALS] == [NINE] + [EQUALS];
    Assoc([NINE], [EQUALS], digits + [SOH]);
  }

  lemma HeadOfParts(begin: seq<byte>, digits: seq<byte>, body: seq<byte>)
    ensures RenderHead(Message(begin, digits, body)) ==
            [EIGHT, EQUALS] + begin + [SOH] + ([NINE, EQUALS] + (digits + [SOH])) + body
  {
    assert [SOH, NINE, EQUALS] == [SOH] + [NINE, EQUALS];
    Seven([EIGHT, EQUALS], begin, [SOH], [NINE, EQUALS], digits, [SOH], body);
  }

  lemma HeadText(begin: seq<byte>, body: seq<byte>)
    ensures RenderHead(Around(begin, body)) ==
            [EIGHT, EQUALS] + begin + [SOH] + RenderField(Field(9, Decimal(|body|))) + body
  {
    LengthText(Decimal(|body|));
    HeadOfParts(begin, Decimal(|body|), body);
  }

  lemma Seven(a: seq<byte>, b: seq<byte>, c: seq<byte>, d: seq<byte>, e: seq<byte>, f: seq<byte>, g: seq<byte>)
    ensures a + (b + ((c + d) + (e + (f + g)))) == a + b + c + (d + (e + f)) + g
  {
    var r := e + (f + g);
    assert (c + d) + r == c + (d + r);
    assert d + r == (d + (e + f)) + g;
  }

  method WriteTrailer(w: Writer, sum: nat)
    requires w.Valid() && !w.full && sum < 256
    modifies w`len, w`full, w.buf
    ensures w.Valid() && (w.full <==> old(w.len) + |RenderTrailer(sum)| > w.buf.Length)
    ensures !w.full ==> w.Text() == old(w.Text()) + RenderTrailer(sum)
  {
    w.Bytes([ONE, ZERO, EQUALS]);
    w.Byte(ZERO + sum / 100 % 10);
    w.Byte(ZERO + sum / 10 % 10);
    w.Byte(ZERO + sum % 10);
    w.Byte(SOH);
    SumText(sum);
  }

  lemma SumText(sum: nat)
    requires sum < 256
    ensures Padded(sum, 3) == [ZERO + sum / 100 % 10, ZERO + sum / 10 % 10, ZERO + sum % 10]
  {
    SumPlaces(sum);
    SumOfPlaces(sum / 100 % 10, sum / 10 % 10, sum % 10, sum);
  }

  lemma SumPlaces(sum: nat)
    requires sum < 256
    ensures 100 * (sum / 100 % 10) + 10 * (sum / 10 % 10) + sum % 10 == sum
  {
  }

  lemma SumOfPlaces(a: nat, b: nat, c: nat, sum: nat)
    requires a < 10 && b < 10 && c < 10 && 100 * a + 10 * b + c == sum
    ensures Padded(sum, 3) == [ZERO + a, ZERO + b, ZERO + c]
  {
    var s := [ZERO + a, ZERO + b, ZERO + c];
    ThreeDigits(s);
    ThreeDigitsUnique(s, sum);
  }

  /** Header, body and trailer in the caller's buffer. */
  method WriteMessage(out: array<byte>, begin: seq<byte>, body: seq<byte>) returns (n: Option<nat>)
    modifies out
    ensures n.Some? <==> |Render(Around(begin, body))| <= out.Length
    ensures n.Some? ==> n.value == |Render(Around(begin, body))| && out[..n.value] == Render(Around(begin, body))
  {
    var w := new Writer(out, 0);
    assert w.Text() == [];
    WriteHead(w, begin, body);
    var head := w.Finish();
    if head.None? {
      return None;
    }
    assert out[..head.value] == RenderHead(Around(begin, body));
    var sum := Checksum(out[..head.value]);
    var v := new Writer(out, head.value);
    WriteTrailer(v, sum);
    n := v.Finish();
  }

  /** `Emitter`. */
  class Emitter {
    const session: Session
    const body: array<byte>
    var nextSeq: nat
    var lastSentNs: nat

    ghost predicate Valid()
      reads this
    {
      body.Length == MAX_EMIT_LEN && nextSeq < U64_LIMIT
    }

    /** `Emitter::new`, which starts at MsgSeqNum 1. */
    constructor (session: Session)
      ensures Valid() && fresh(body) && this.session == session && nextSeq == 1 && lastSentNs == 0
    {
      this.session := session;
      body := new byte[MAX_EMIT_LEN](_ => 0);
      nextSeq, lastSentNs := 1, 0;
    }

    /** The body alone, in the emitter's own buffer. */
    method WriteBody(msgType: seq<byte>, now: nat, fields: seq<Field>) returns (n: Option<nat>)
      requires Valid() && now < U64_LIMIT
      modifies body
      ensures var text := RenderFields(AllFields(session, msgType, nextSeq, now, fields));
              && (n.Some? <==> |text| <= MAX_EMIT_LEN)
              && (n.Some? ==> n.value == |text| && body[..n.value] == text)
    {
      var stamp := new byte[21](_ => 0);
      var k := WriteSendingTime(now, stamp);
      var header := [Field(MSG_TYPE, msgType), Field(SENDER_COMP_ID, session.sender),
                     Field(TARGET_COMP_ID, session.target),
                     Field(MSG_SEQ_NUM, Decimal(nextSeq)), Field(SENDING_TIME, stamp[..k])];
      var w := new Writer(body, 0);
      assert w.Text() == [];
      WriteFields(w, header);
      assert [] + RenderFields(header) == RenderFields(header);
      WriteFields(w, fields);
      RenderMore(header, fields);
      n := w.Finish();
    }

    /** `build`: the message in `out`, and a sequence number consumed, or neither. */
    method Build(msgType: seq<byte>, now: nat, out: array<byte>, fields: seq<Field>) returns (r: Result<nat, nat>)
      requires Valid() && now < U64_LIMIT && out != body
      modifies this`nextSeq, this`lastSentNs, body, out
      ensures Valid()
      ensures var m := Built(session, msgType, old(nextSeq), now, fields);
              && (r.Ok? <==> |m.body| <= 4096 && |Render(m)| <= out.Length)
              && (r.Err? ==> r.error == if |m.body| > 4096 then 4096 else out.Length)
              && (r.Ok? ==> r.value == |Render(m)| && out[..r.value] == Render(m))
      ensures r.Ok? ==> nextSeq == (old(nextSeq) + 1) % U64_LIMIT && lastSentNs == now
      ensures r.Err? ==> nextSeq == old(nextSeq) && lastSentNs == old(lastSentNs)
    {
      ghost var m := Built(session, msgType, nextSeq, now, fields);
      var bodyLen := WriteBody(msgType, now, fields);
      if bodyLen.None? {
        return Err(MAX_EMIT_LEN);
      }
      assert body[..bodyLen.value] == m.body;
      var total := WriteMessage(out, session.begin, body[..bodyLen.value]);
      if total.None? {
        return Err(out.Length);
      }
      nextSeq := (nextSeq + 1) % U64_LIMIT;
      lastSentNs := now;
      return Ok(total.value);
    }
  }

  // ------------------------------------------------------------------------------------------------
  // What was built
  // ------------------------------------------------------------------------------------------------

  predicate SohFree(s: seq<byte>) {
    SOH !in s
  }

  lemma {:induction false} EndsWithSoh(fs: seq<Field>)
    requires fs != []
    ensures RenderFields(fs) != [] && RenderFields(fs)[|RenderFields(fs)| - 1] == SOH
    decreases |fs|
  {
    var f := fs[0];
    assert RenderField(f)[|RenderField(f)| - 1] == SOH;
    if |fs| > 1 {
      EndsWithSoh(fs[1..]);
    } else {
      assert fs[1..] == [];
    }
  }

  lemma DigitsAreSohFree(s: seq<byte>)
    requires AllDigits(s)
    ensures SohFree(s)
  {
  }

  lemma PaddedIsSohFree(n: nat, width: nat)
    requires width >= 1
    ensures SohFree(Padded(n, width))
  {
    PaddedValue(n, width);
  }

  lemma StampTextIsSohFree(c: Date, h: nat, m: nat, s: nat, millis: nat)
    requires Valid(c)
    ensures SohFree(StampText(c, h, m, s, millis))
  {
    PaddedIsSohFree(c.year % 10_000, 4);
    PaddedIsSohFree(c.month, 2);
    PaddedIsSohFree(c.day, 2);
    PaddedIsSohFree(h, 2);
    PaddedIsSohFree(m, 2);
    PaddedIsSohFree(s, 2);
    PaddedIsSohFree(millis, 3);
  }

  lemma StampIsSohFree(now: nat)
    requires now < U64_LIMIT
    ensures SohFree(SendingTime(now))
  {
    var c, h, m, s, millis, days, clock := Pieces(now);
    StampTextIsSohFree(c, h, m, s, millis);
  }

  lemma HeaderIsWritable(s: Session, msgType: seq<byte>, seqNum: nat, now: nat)
    requires SohFree(s.sender) && SohFree(s.target) && SohFree(msgType) && now < U64_LIMIT
    ensures AllWritable(HeaderFields(s, msgType, seqNum, now))
  {
    DecimalValue(seqNum);
    DigitsAreSohFree(Decimal(seqNum));
    StampIsSohFree(now);
  }

  lemma LengthParses(n: nat)
    requires n <= MAX_EMIT_LEN
    ensures ParseU64(Decimal(n)) == Some(n)
  {
    DecimalValue(n);
    assert Pow10(4) == 10_000;
    DecimalLength(n, 4);
  }

  /** Every message built of values free of `<SOH>` is framed as exactly its own bytes, with its BodyLength and
    * its CheckSum right, and its fields are the header's and then the given ones, in order. */
  lemma BuiltIsFramed(s: Session, msgType: seq<byte>, seqNum: nat, now: nat, fields: seq<Field>, out: seq<byte>)
    requires s.begin != [] && SohFree(s.begin) && SohFree(s.sender) && SohFree(s.target) && SohFree(msgType)
    requires AllWritable(fields) && now < U64_LIMIT
    requires var m := Built(s, msgType, seqNum, now, fields); |m.body| <= MAX_EMIT_LEN && out == Render(m)
    ensures var m := Built(s, msgType, seqNum, now, fields);
            && WellFormed(m) && FrameAt(out) == Ok(Frame(|out|, s.begin, m.body))
            && FieldsFrom(m.body, 0) == (AllFields(s, msgType, seqNum, now, fields), true)
  {
    var m := Built(s, msgType, seqNum, now, fields);
    var all := AllFields(s, msgType, seqNum, now, fields);
    assert AllWritable(all) by { HeaderIsWritable(s, msgType, seqNum, now); }
    EndsWithSoh(all);
    LengthParses(|m.body|);
    FramesMessage(out, m);
    FieldsRoundTrip(all);
  }

  /** A number reads back from its decimal exactly when it has at most nineteen digits. */
  lemma DecimalReadsIff(n: nat)
    ensures ParseU64(Decimal(n)) == if n < Pow10(19) then Some(n) else None
  {
    DecimalValue(n);
    if n < Pow10(19) {
      DecimalLength(n, 19);
    } else if |Decimal(n)| <= 19 {
      DigitsValueBound(Decimal(n));
      Pow10Monotone(|Decimal(n)|, 19);
    }
  }

  /** The number a message carries reads back from it exactly when it has at most nineteen digits: the last
    * numbers of a `u64` have twenty, and the reader refuses those. */
  lemma CarriesItsNumberIff(s: Session, msgType: seq<byte>, seqNum: nat, now: nat, fields: seq<Field>)
    ensures var f := AllFields(s, msgType, seqNum, now, fields)[3];
            f.tag == MSG_SEQ_NUM && ParseU64(f.value) == (if seqNum < Pow10(19) then Some(seqNum) else None)
    ensures Pow10(19) < U64_LIMIT
  {
    DecimalReadsIff(seqNum);
    TenToNineteen();
  }

  /** The value of the only field with a tag, if there is one. */
  function Held(fs: seq<Field>, tag: nat): Option<seq<byte>> {
    if fs == [] then None
    else if fs[0].tag == tag then (if Held(fs[1..], tag).None? then Some(fs[0].value) else None)
    else Held(fs[1..], tag)
  }

  lemma HeldInFront(f: Field, rest: seq<Field>, tag: nat)
    ensures Held([f] + rest, tag) ==
            if f.tag == tag then (if Held(rest, tag).None? then Some(f.value) else None) else Held(rest, tag)
  {
    assert ([f] + rest)[1..] == rest;
  }

  lemma FiveHeld(a: Field, b: Field, c: Field, d: Field, e: Field)
    requires a.tag == 35 && b.tag == 49 && c.tag == 56 && d.tag == 34 && e.tag == 52
    ensures var fs := [a, b, c, d, e];
            Held(fs, 35) == Some(a.value) && Held(fs, 49) == Some(b.value) && Held(fs, 56) == Some(c.value) &&
            Held(fs, 34) == Some(d.value) && Held(fs, 52) == Some(e.value)
  {
    forall tag {:trigger Held([a, b, c, d, e], tag)} | tag in {35, 49, 56, 34, 52}
      ensures Held([a, b, c, d, e], tag) ==
              Some(if tag == 35 then a.value else if tag == 49 then b.value else if tag == 56 then c.value
                   else if tag == 34 then d.value else e.value)
    {
      HeldInFront(a, [b, c, d, e], tag);
      HeldInFront(b, [c, d, e], tag);
      HeldInFront(c, [d, e], tag);
      HeldInFront(d, [e], tag);
      HeldInFront(e, [], tag);
      assert [a] + [b, c, d, e] == [a, b, c, d, e] && [b] + [c, d, e] == [b, c, d, e];
      assert [c] + [d, e] == [c, d, e] && [d] + [e] == [d, e] && [e] + [] == [e];
    }
  }

  /** What a counterparty reads in the header of a message: its type first, who sends it and to whom, its number,
    * and the clock's reading to the millisecond. */
  predicate HeaderSays(fs: seq<Field>, s: Session, msgType: seq<byte>, seqNum: nat, now: nat) {
    && |fs| == 5 && fs[0].tag == 35
    && Held(fs, 35) == Some(msgType) && Held(fs, 49) == Some(s.sender) && Held(fs, 56) == Some(s.target)
    && Held(fs, 34).Some? && Held(fs, 52).Some?
    && ParseU64(Held(fs, 34).value) == (if seqNum < 10_000_000_000_000_000_000 then Some(seqNum) else None)
    && ParseUtcTimestamp(Held(fs, 52).value) == Some(now - now % 1_000_000)
  }

  lemma TenToNineteen()
    ensures Pow10(19) == 10_000_000_000_000_000_000
  {
    assert Pow10(4) == 10_000;
    assert Pow10(8) == 10_000 * Pow10(4);
    assert Pow10(12) == 10_000 * Pow10(8);
    assert Pow10(16) == 10_000 * Pow10(12);
    assert Pow10(19) == 1000 * Pow10(16);
  }

  lemma HeaderIsSaid(s: Session, msgType: seq<byte>, seqNum: nat, now: nat)
    requires now < U64_LIMIT
    ensures HeaderSays(HeaderFields(s, msgType, seqNum, now), s, msgType, seqNum, now)
  {
    var fs := HeaderFields(s, msgType, seqNum, now);
    FiveHeld(fs[0], fs[1], fs[2], fs[3], fs[4]);
    TenToNineteen();
    DecimalReadsIff(seqNum);
    StampRoundTrip(now, SendingTime(now));
  }

  /** Of every message built: the bytes are framed, and reading the body back gives the five fields of the header
    * and then the given ones, in order, and nothing else. */
  lemma BuiltSays(s: Session, msgType: seq<byte>, seqNum: nat, now: nat, fields: seq<Field>, out: seq<byte>)
    requires s.begin != [] && SohFree(s.begin) && SohFree(s.sender) && SohFree(s.target) && SohFree(msgType)
    requires AllWritable(fields) && now < U64_LIMIT
    requires var m := Built(s, msgType, seqNum, now, fields); |m.body| <= MAX_EMIT_LEN && out == Render(m)
    ensures FrameAt(out).Ok? && FrameAt(out).value.total == |out| && FrameAt(out).value.begin == s.begin
    ensures var (fs, whole) := FieldsFrom(FrameAt(out).value.body, 0);
            && whole && |fs| >= 5 && HeaderSays(fs[..5], s, msgType, seqNum, now) && fs[5..] == fields
  {
    BuiltIsFramed(s, msgType, seqNum, now, fields, out);
    HeaderIsSaid(s, msgType, seqNum, now);
    var all := AllFields(s, msgType, seqNum, now, fields);
    assert all[..5] == HeaderFields(s, msgType, seqNum, now) && all[5..] == fields;
  }
}

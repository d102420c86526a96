/** A fixed output buffer that remembers whether it ran out. */
module FixWriter {
  import opened Wrappers
  import opened Bytes
  import opened FixFields
  import opened Calendar
  import opened UtcTime

  function Reversed(s: seq<byte>): (r: seq<byte>)
    ensures |r| == |s|
  {
    if s == [] then [] else [s[|s| - 1]] + Reversed(s[..|s| - 1])
  }

  lemma ReversedNext(digits: seq<byte>, i: nat, done: seq<byte>)
    requires i < |digits|
    ensures done + Reversed(digits[..i + 1]) == (done + [digits[i]]) + Reversed(digits[..i])
  {
    assert digits[..i + 1][..i] == digits[..i];
  }

  /** The digits of a machine word, least significant first. */
  method DigitsOf(value: nat) returns (digits: seq<byte>)
    ensures Reversed(digits) == Decimal(value)
  {
    digits := [ZERO + value % 10];
    assert digits[..0] == [];
    var v: nat := value / 10;
    while v != 0
      invariant Decimal(value) == (if v == 0 then [] else Decimal(v)) + Reversed(digits)
      decreases v
    {
      ghost var before := digits;
      digits := digits + [ZERO + v % 10];
      assert digits[..|before|] == before;
      v := v / 10;
    }
  }

  class Writer {
    const buf: array<byte>
    var len: nat
    var full: bool

    ghost predicate Valid()
      reads this
    {
      len <= buf.Length
    }

    /** What has been written, as long as nothing was dropped. */
    ghost function Text(): seq<byte>
      reads this, buf
      requires Valid()
    {
      buf[..len]
    }

    /** `Writer::at`: continues behind what is there. */
    constructor (buf: array<byte>, at: nat)
      ensures Valid() && this.buf == buf && full == (at > buf.Length) && (!full ==> len == at)
    {
      this.buf := buf;
      full := at > buf.Length;
      len := if at <= buf.Length then at else buf.Length;
    }

    method Byte(b: byte)
      requires Valid()
      modifies this`len, this`full, buf
      ensures Valid() && (full <==> old(full) || old(len) + 1 > buf.Length)
      ensures !full ==> Text() == old(Text()) + [b]
    {
      if len < buf.Length {
        buf[len] := b;
        len := len + 1;
      } else {
        full := true;
      }
    }

    method Bytes(s: seq<byte>)
      requires Valid()
      modifies this`len, this`full, buf
      ensures Valid() && (full <==> old(full) || old(len) + |s| > buf.Length)
      ensures !full ==> Text() == old(Text()) + s
    {
      if len + |s| > buf.Length {
        full := true;
        return;
      }
      var i := 0;
      while i < |s|
        invariant 0 <= i <= |s| && len == old(len) && full == old(full)
        invariant buf[..len + i] == old(buf[..len]) + s[..i]
      {
        buf[len + i] := s[i];
        i := i + 1;
      }
      assert s[..i] == s;
      len := len + |s|;
    }

    /** Digits from the last to the first. */
    method Backwards(digits: seq<byte>)
      requires Valid()
      modifies this`len, this`full, buf
      ensures Valid() && (full <==> old(full) || old(len) + |digits| > buf.Length)
      ensures !full ==> Text() == old(Text()) + Reversed(digits)
    {
      var i := |digits|;
      ghost var done: seq<byte> := [];
      assert digits[..i] == digits;
      while i > 0
        invariant 0 <= i <= |digits| && Valid() && |done| == |digits| - i
        invariant done + Reversed(digits[..i]) == Reversed(digits)
        invariant full <==> old(full) || old(len) + |done| > buf.Length
        invariant !full ==> Text() == old(Text()) + done
      {
        i := i - 1;
        ReversedNext(digits, i, done);
        Byte(digits[i]);
        done := done + [digits[i]];
      }
      assert done + [] == done;
    }

    /** `u64`: decimal, no padding. */
    method U64(value: nat)
      requires Valid()
      modifies this`len, this`full, buf
      ensures Valid() && (full <==> old(full) || old(len) + |Decimal(value)| > buf.Length)
      ensures !full ==> Text() == old(Text()) + Decimal(value)
    {
      var digits := DigitsOf(value);
      Backwards(digits);
    }

    /** `pad`: decimal, zero-padded. */
    method Pad(value: nat, width: nat)
      requires Valid()
      modifies this`len, this`full, buf
      ensures Valid() && (full <==> old(full) || old(len) + |Padded(value, width)| > buf.Length)
      ensures !full ==> Text() == old(Text()) + Padded(value, width)
    {
      var digits := DigitsOf(value);
      var n := |digits|;
      while n < width
        invariant |digits| <= n && (n <= width || n == |digits|) && Valid()
        invariant full <==> old(full) || old(len) + (n - |digits|) > buf.Length
        invariant !full ==> Text() == old(Text()) + Repeat(ZERO, n - |digits|)
      {
        Byte(ZERO);
        assert Repeat(ZERO, n + 1 - |digits|) == Repeat(ZERO, n - |digits|) + [ZERO];
        n := n + 1;
      }
      Backwards(digits);
    }

    /** `tag`. */
    method Tag(tag: nat, value: seq<byte>)
      requires Valid()
      modifies this`len, this`full, buf
      ensures Valid() && (full <==> old(full) || old(len) + |RenderField(Field(tag, value))| > buf.Length)
      ensures !full ==> Text() == old(Text()) + RenderField(Field(tag, value))
    {
      U64(tag);
      Byte(EQUALS);
      Bytes(value);
      Byte(SOH);
      Four(old(Text()), Decimal(tag), [EQUALS], value, [SOH]);
    }

    /** `tag_u64`. */
    method TagU64(tag: nat, value: nat)
      requires Valid()
      modifies this`len, this`full, buf
      ensures Valid() && (full <==> old(full) || old(len) + |RenderField(Field(tag, Decimal(value)))| > buf.Length)
      ensures !full ==> Text() == old(Text()) + RenderField(Field(tag, Decimal(value)))
    {
      U64(tag);
      Byte(EQUALS);
      U64(value);
      Byte(SOH);
      Four(old(Text()), Decimal(tag), [EQUALS], Decimal(value), [SOH]);
    }

    /** `finish`: the bytes written, or nothing if anything was dropped. */
    method Finish() returns (n: Option<nat>)
      ensures n == if full then None else Some(len)
    {
      n := if full then None else Some(len);
    }
  }

  lemma Four(a: seq<byte>, b: seq<byte>, c: seq<byte>, d: seq<byte>, e: seq<byte>)
    ensures a + b + c + d + e == a + (b + (c + (d + e)))
  {
  }

  lemma Three(a: seq<byte>, b: seq<byte>, c: seq<byte>, d: seq<byte>)
    ensures a + b + c + d == a + (b + c + d)
  {
  }

  lemma Five(a: seq<byte>, b: seq<byte>, c: seq<byte>, d: seq<byte>, e: seq<byte>, f: seq<byte>)
    ensures a + b + c + d + e + f == a + (b + c + d + e + f)
  {
  }

  method WriteDate(w: Writer, c: Date)
    requires w.Valid() && Valid(c)
    modifies w`len, w`full, w.buf
    ensures w.Valid() && (w.full <==> old(w.full) || old(w.len) + |DateText(c)| > w.buf.Length)
    ensures !w.full ==> w.Text() == old(w.Text()) + DateText(c)
  {
    w.Pad(c.year % 10_000, 4);
    w.Pad(c.month, 2);
    w.Pad(c.day, 2);
    Three(old(w.Text()), Padded(c.year % 10_000, 4), Padded(c.month, 2), Padded(c.day, 2));
  }

  method WriteClock(w: Writer, h: nat, m: nat, s: nat)
    requires w.Valid()
    modifies w`len, w`full, w.buf
    ensures w.Valid() && (w.full <==> old(w.full) || old(w.len) + |ClockText(h, m, s)| > w.buf.Length)
    ensures !w.full ==> w.Text() == old(w.Text()) + ClockText(h, m, s)
  {
    w.Pad(h, 2);
    w.Byte(COLON);
    w.Pad(m, 2);
    w.Byte(COLON);
    w.Pad(s, 2);
    Five(old(w.Text()), Padded(h, 2), [COLON], Padded(m, 2), [COLON], Padded(s, 2));
  }

  /** `write_sending_time`. */
  method WriteSendingTime(now: nat, out: array<byte>) returns (n: nat)
    requires out.Length == 21 && now < U64_LIMIT
    modifies out
    ensures n == 21 && out[..21] == SendingTime(now)
  {
    var secs := now / NS_PER_SEC;
    var days, sod := secs / 86_400, secs % 86_400;
    CalendarIsValid(days);
    var w := new Writer(out, 0);
    assert w.Text() == [];
    n := WriteStamp(w, CivilFromDays(days), sod / 3600, sod / 60 % 60, sod % 60, now % NS_PER_SEC / 1_000_000);
    StampRoundTrip(now, SendingTime(now));
  }

  method WriteStamp(w: Writer, c: Date, h: nat, m: nat, s: nat, millis: nat) returns (n: nat)
    requires w.Valid() && w.Text() == [] && !w.full && Valid(c)
    modifies w`len, w`full, w.buf
    ensures var stamp := StampText(c, h, m, s, millis);
            |stamp| <= w.buf.Length ==> n == |stamp| && w.buf[..n] == stamp
  {
    WriteDate(w, c);
    w.Byte(DASH);
    WriteClock(w, h, m, s);
    w.Byte(POINT);
    w.Pad(millis, 3);
    var done := w.Finish();
    n := if done.None? then 0 else done.value;
    assert [] + DateText(c) == DateText(c);
  }
}

/** FIX `tag=value<SOH>` fields. */
module FixFields {
  import opened Wrappers
  import opened Bytes
  import opened Placement

  const SOH: byte := 0x01
  const EQUALS: byte := 0x3D

  datatype Field = Field(tag: nat, value: seq<byte>)

  /** `parse_u64`: one to nineteen digits. */
  function ParseU64(s: seq<byte>): Option<nat> {
    if s == [] || |s| > 19 || !AllDigits(s) then None else Some(DigitsValue(s))
  }

  /** Its loop. */
  method ReadU64(s: seq<byte>) returns (r: Option<nat>)
    ensures r == ParseU64(s)
  {
    if s == [] || |s| > 19 {
      return None;
    }
    var v := 0;
    var i := 0;
    while i < |s|
      invariant 0 <= i <= |s| && AllDigits(s[..i]) && v == DigitsValue(s[..i])
    {
      if !IsDigit(s[i]) {
        return None;
      }
      assert s[..i + 1][..i] == s[..i];
      v := v * 10 + (s[i] - ZERO);
      i := i + 1;
    }
    assert s[..i] == s;
    return Some(v);
  }

  datatype Split = Split(field: Field, past: nat)

  /** `split_field`, from `pos` on: the field and the position past its `<SOH>`. */
  function SplitField(data: seq<byte>, pos: nat): (r: Option<Split>)
    requires pos <= |data|
    ensures r.Some? ==> pos < r.value.past <= |data|
  {
    var eq := IndexFrom(data, pos, EQUALS);
    if eq == |data| || eq == pos || eq - pos > 10 then None
    else
      match ParseU64(data[pos..eq])
      case None => None
      case Some(tag) =>
        if tag >= U32_LIMIT then None
        else
          var end := IndexFrom(data, eq + 1, SOH);
          if end == |data| then None else Some(Split(Field(tag, data[eq + 1..end]), end + 1))
  }

  /** The fields from `pos` on, and whether the walk ended without a malformed one. */
  function FieldsFrom(data: seq<byte>, pos: nat): (seq<Field>, bool)
    requires pos <= |data|
    decreases |data| - pos
  {
    if pos == |data| then ([], true)
    else
      match SplitField(data, pos)
      case None => ([], false)
      case Some(s) => var rest := FieldsFrom(data, s.past); ([s.field] + rest.0, rest.1)
  }

  datatype Item = Good(field: Field) | Malformed(offset: nat)

  /** `Fields`: yields a malformed field once and then ends. */
  class Fields {
    const body: seq<byte>
    var pos: nat

    ghost predicate Valid()
      reads this
    {
      pos <= |body|
    }

    ghost function Remaining(): (seq<Field>, bool)
      reads this
      requires Valid()
    {
      FieldsFrom(body, pos)
    }

    constructor (body: seq<byte>)
      ensures Valid() && this.body == body && pos == 0
    {
      this.body := body;
      pos := 0;
    }

    method Next() returns (item: Option<Item>)
      requires Valid()
      modifies this`pos
      ensures Valid() && old(pos) <= pos
      ensures item.None? <==> old(pos) == |body|
      ensures item.None? ==> pos == old(pos)
      ensures item.Some? && item.value.Good? ==>
                old(Remaining()).0 == [item.value.field] + Remaining().0 && old(Remaining()).1 == Remaining().1
      ensures item.Some? && item.value.Malformed? ==>
                old(Remaining()) == ([], false) && item.value.offset == old(pos) && pos == |body|
    {
      if pos == |body| {
        return None;
      }
      var start := pos;
      match SplitField(body, pos) {
        case Some(s) =>
          pos := s.past;
          return Some(Good(s.field));
        case None =>
          pos := |body|;
          return Some(Malformed(start));
      }
    }
  }

  // ------------------------------------------------------------------------------------------------
  // Fields written out
  // ------------------------------------------------------------------------------------------------

  predicate Writable(f: Field) {
    f.tag < U32_LIMIT && SOH !in f.value
  }

  predicate AllWritable(fs: seq<Field>) {
    forall i :: 0 <= i < |fs| ==> Writable(fs[i])
  }

  function RenderField(f: Field): seq<byte> {
    Decimal(f.tag) + ([EQUALS] + (f.value + [SOH]))
  }

  function RenderFields(fs: seq<Field>): seq<byte> {
    if fs == [] then [] else RenderField(fs[0]) + RenderFields(fs[1..])
  }

  lemma TagDigits(tag: nat)
    requires tag < U32_LIMIT
    ensures var d := Decimal(tag);
            1 <= |d| <= 10 && AllDigits(d) && ParseU64(d) == Some(tag) && EQUALS !in d && SOH !in d
  {
    DecimalValue(tag);
    assert Pow10(10) == 10_000_000_000 by { assert Pow10(5) == 100_000; assert Pow10(10) == 100_000 * Pow10(5); }
    DecimalLength(tag, 10);
  }

  lemma FieldParts(data: seq<byte>, pos: nat, f: Field)
    requires At(data, pos, RenderField(f))
    ensures var eq := pos + |Decimal(f.tag)|;
            && At(data, pos, Decimal(f.tag)) && ByteAt(data, eq, EQUALS)
            && At(data, eq + 1, f.value) && ByteAt(data, eq + 1 + |f.value|, SOH)
            && eq + 1 + |f.value| + 1 == pos + |RenderField(f)|
  {
    var eq := pos + |Decimal(f.tag)|;
    AtSplit(data, pos, Decimal(f.tag), [EQUALS] + (f.value + [SOH]));
    AtSplit(data, eq, [EQUALS], f.value + [SOH]);
    AtSplit(data, eq + 1, f.value, [SOH]);
    AtOne(data, eq, EQUALS);
    AtOne(data, eq + 1 + |f.value|, SOH);
  }

  /** A field written out is split off whole. */
  lemma SplitsField(data: seq<byte>, pos: nat, f: Field)
    requires At(data, pos, RenderField(f)) && Writable(f)
    ensures SplitField(data, pos) == Some(Split(f, pos + |RenderField(f)|))
  {
    var eq := pos + |Decimal(f.tag)|;
    FieldParts(data, pos, f);
    TagDigits(f.tag);
    IndexAfter(data, pos, Decimal(f.tag), EQUALS);
    IndexAfter(data, eq + 1, f.value, SOH);
    AtIsSlice(data, pos, Decimal(f.tag));
    AtIsSlice(data, eq + 1, f.value);
  }

  /** Fields written out are read back, all of them and in order, in front of what is read behind them. */
  lemma {:induction false} ReadsFields(data: seq<byte>, pos: nat, fs: seq<Field>, end: nat, more: seq<Field>,
                                       whole: bool)
    requires At(data, pos, RenderFields(fs)) && AllWritable(fs) && end == pos + |RenderFields(fs)|
    requires FieldsFrom(data, end) == (more, whole)
    ensures FieldsFrom(data, pos) == (fs + more, whole)
    decreases |fs|
  {
    if fs == [] {
      assert [] + more == more;
    } else {
      var past := SplitsFirst(data, pos, fs);
      ReadsFields(data, past, fs[1..], end, more, whole);
      FirstField(data, pos, fs, past, more, whole);
    }
  }

  lemma SplitsFirst(data: seq<byte>, pos: nat, fs: seq<Field>) returns (past: nat)
    requires At(data, pos, RenderFields(fs)) && AllWritable(fs) && fs != []
    ensures SplitField(data, pos) == Some(Split(fs[0], past)) && At(data, past, RenderFields(fs[1..]))
    ensures past + |RenderFields(fs[1..])| == pos + |RenderFields(fs)|
  {
    past := pos + |RenderField(fs[0])|;
    AtSplit(data, pos, RenderField(fs[0]), RenderFields(fs[1..]));
    SplitsField(data, pos, fs[0]);
  }

  lemma FirstField(data: seq<byte>, pos: nat, fs: seq<Field>, past: nat, more: seq<Field>, whole: bool)
    requires pos <= |data| && fs != [] && SplitField(data, pos) == Some(Split(fs[0], past))
    requires past <= |data| && FieldsFrom(data, past) == (fs[1..] + more, whole)
    ensures FieldsFrom(data, pos) == (fs + more, whole)
  {
    assert [fs[0]] + (fs[1..] + more) == fs + more;
  }

  /** The fields of a rendered body are the fields it was rendered from. */
  lemma FieldsRoundTrip(fs: seq<Field>)
    requires AllWritable(fs)
    ensures FieldsFrom(RenderFields(fs), 0) == (fs, true)
  {
    var data := RenderFields(fs);
    assert FieldsFrom(data, |data|) == ([], true);
    ReadsFields(data, 0, fs, |data|, [], true);
    assert fs + [] == fs;
  }

  // ------------------------------------------------------------------------------------------------
  // Malformed fields
  // ------------------------------------------------------------------------------------------------

  /** From `pos` to `past` stand one to ten digits of a tag, `=`, a value, and the first `<SOH>` behind it. */
  ghost predicate Stands(data: seq<byte>, pos: nat, s: Split) {
    exists eq: nat :: StandsAround(data, pos, eq, s)
  }

  predicate StandsAround(data: seq<byte>, pos: nat, eq: nat, s: Split) {
    && pos < eq < s.past - 1 < |data| && eq - pos <= 10
    && AllDigits(data[pos..eq]) && DigitsValue(data[pos..eq]) == s.field.tag < 0x1_0000_0000
    && data[eq] == 0x3D && data[eq + 1..s.past - 1] == s.field.value && 0x01 !in s.field.value
    && data[s.past - 1] == 0x01
  }

  lemma IndexIs(data: seq<byte>, pos: nat, at: nat, b: byte)
    requires pos <= at < |data| && data[at] == b && forall k :: pos <= k < at ==> data[k] != b
    ensures IndexFrom(data, pos, b) == at
  {
  }

  lemma StandsIsSplit(data: seq<byte>, pos: nat, s: Split)
    requires pos <= |data| && Stands(data, pos, s)
    ensures SplitField(data, pos) == Some(s)
  {
    var eq: nat :| StandsAround(data, pos, eq, s);
    forall k | pos <= k < eq ensures data[k] != EQUALS {
      assert data[pos..eq][k - pos] == data[k];
    }
    IndexIs(data, pos, eq, EQUALS);
    forall k | eq + 1 <= k < s.past - 1 ensures data[k] != SOH {
      assert data[eq + 1..s.past - 1][k - eq - 1] == data[k];
    }
    IndexIs(data, eq + 1, s.past - 1, SOH);
  }

  lemma SplitStands(data: seq<byte>, pos: nat, s: Split)
    requires pos <= |data| && SplitField(data, pos) == Some(s)
    ensures Stands(data, pos, s)
  {
    var eq := IndexFrom(data, pos, EQUALS);
    var end := IndexFrom(data, eq + 1, SOH);
    assert StandsAround(data, pos, eq, s);
  }

  /** Any bytes: a field is split off exactly when it stands there, so anything else is malformed. */
  lemma SplitsIff(data: seq<byte>, pos: nat, s: Split)
    requires pos <= |data|
    ensures SplitField(data, pos) == Some(s) <==> Stands(data, pos, s)
  {
    if Stands(data, pos, s) {
      StandsIsSplit(data, pos, s);
    } else if SplitField(data, pos) == Some(s) {
      SplitStands(data, pos, s);
    }
  }

  /** No field stands at the front. */
  ghost predicate Broken(rest: seq<byte>) {
    rest != [] && forall s: Split {:trigger Stands(rest, 0, s)} :: !Stands(rest, 0, s)
  }

  /** Behind whole fields the walk stops at the first broken one. */
  lemma StopsAtBroken(fs: seq<Field>, rest: seq<byte>)
    requires AllWritable(fs) && Broken(rest)
    ensures FieldsFrom(RenderFields(fs) + rest, 0) == (fs, false)
  {
    var front := RenderFields(fs);
    if SplitField(front + rest, |front|).Some? {
      var s := SplitField(front + rest, |front|).value;
      SplitStands(front + rest, |front|, s);
      StandsBehind(front, rest, s);
    }
    ReadsFields(front + rest, 0, fs, |front|, [], false);
    assert fs + [] == fs;
  }

  lemma StandsBehind(front: seq<byte>, rest: seq<byte>, s: Split)
    requires Stands(front + rest, |front|, s)
    ensures s.past >= |front| && Stands(rest, 0, s.(past := s.past - |front|))
  {
    var eq: nat :| StandsAround(front + rest, |front|, eq, s);
    Onward(front, rest, |front|, eq);
    Onward(front, rest, eq + 1, s.past - 1);
    assert StandsAround(rest, 0, eq - |front|, s.(past := s.past - |front|));
  }

  lemma Onward(front: seq<byte>, rest: seq<byte>, from: nat, to: nat)
    requires |front| <= from <= to <= |front + rest|
    ensures (front + rest)[from..to] == rest[from - |front|..to - |front|]
  {
  }
}

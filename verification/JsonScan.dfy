/** The flat JSON scanners: each steps over one thing and says how far it went. */
module JsonScan {
  import opened Wrappers
  import opened Bytes

  const QUOTE: byte := 0x22
  const BACKSLASH: byte := 0x5C
  const COLON: byte := 0x3A
  const COMMA: byte := 0x2C
  const OPEN_BRACE: byte := 0x7B
  const CLOSE_BRACE: byte := 0x7D
  const OPEN_BRACKET: byte := 0x5B
  const CLOSE_BRACKET: byte := 0x5D

  predicate IsWs(b: byte) {
    b == 0x20 || b == 0x09 || b == 0x0A || b == 0x0D
  }

  predicate IsAlpha(b: byte) {
    0x41 <= b <= 0x5A || 0x61 <= b <= 0x7A
  }

  predicate IsNumberByte(b: byte) {
    IsDigit(b) || b in {MINUS, PLUS, POINT, 0x65, 0x45}
  }

  // ------------------------------------------------------------------------------------------------
  // Where each scanner stops
  // ------------------------------------------------------------------------------------------------

  function WsEnd(data: seq<byte>, pos: nat): (end: nat)
    requires pos <= |data|
    ensures pos <= end <= |data|
    ensures end < |data| ==> !IsWs(data[end])
    decreases |data| - pos
  {
    if pos < |data| && IsWs(data[pos]) then WsEnd(data, pos + 1) else pos
  }

  function LiteralEnd(data: seq<byte>, pos: nat): (end: nat)
    requires pos <= |data|
    ensures pos <= end <= |data|
    decreases |data| - pos
  {
    if pos < |data| && IsAlpha(data[pos]) then LiteralEnd(data, pos + 1) else pos
  }

  function NumberEnd(data: seq<byte>, pos: nat): (end: nat)
    requires pos <= |data|
    ensures pos <= end <= |data|
    decreases |data| - pos
  {
    if pos < |data| && IsNumberByte(data[pos]) then NumberEnd(data, pos + 1) else pos
  }

  /** A run of one kind of byte ends at the first byte of another. */
  lemma {:induction false} RunsEnd(data: seq<byte>, pos: nat)
    requires pos <= |data|
    ensures var end := WsEnd(data, pos);
            && (forall i :: pos <= i < end ==> data[i] in {0x20, 0x09, 0x0A, 0x0D})
            && (end < |data| ==> data[end] !in {0x20, 0x09, 0x0A, 0x0D})
    ensures var end := LiteralEnd(data, pos);
            && (forall i :: pos <= i < end ==> 0x41 <= data[i] <= 0x5A || 0x61 <= data[i] <= 0x7A)
            && (end < |data| ==> !(0x41 <= data[end] <= 0x5A) && !(0x61 <= data[end] <= 0x7A))
    ensures var end := NumberEnd(data, pos);
            && (forall i :: pos <= i < end ==>
                  0x30 <= data[i] <= 0x39 || data[i] in {0x2B, 0x2D, 0x2E, 0x45, 0x65})
            && (end < |data| ==> !(0x30 <= data[end] <= 0x39) && data[end] !in {0x2B, 0x2D, 0x2E, 0x45, 0x65})
    decreases |data| - pos
  {
    if pos < |data| {
      RunsEnd(data, pos + 1);
    }
  }

  function QuoteFrom(data: seq<byte>, pos: nat): (at: nat)
    requires pos <= |data|
    ensures pos <= at <= |data|
    ensures at < |data| ==> data[at] == QUOTE
    decreases |data| - pos
  {
    if pos < |data| && data[pos] != QUOTE then QuoteFrom(data, pos + 1) else pos
  }

  /** The quote that ends a string already entered; a backslash takes the next byte with it. */
  function BodyEnd(data: seq<byte>, pos: nat): (end: nat)
    requires pos <= |data|
    ensures pos <= end <= |data|
    decreases |data| - pos
  {
    if pos >= |data| || data[pos] == QUOTE then pos
    else if data[pos] == BACKSLASH && pos + 1 < |data| then BodyEnd(data, pos + 2)
    else BodyEnd(data, pos + 1)
  }

  function PastOne(data: seq<byte>, pos: nat, b: byte): (end: nat)
    requires pos <= |data|
    ensures pos <= end <= |data|
  {
    if pos < |data| && data[pos] == b then pos + 1 else pos
  }

  /** The string whose quote is at `open`, and the position past it; at the end there is none. */
  function BytesOf(data: seq<byte>, open: nat): seq<byte>
    requires open <= |data|
  {
    if open == |data| then [] else data[open + 1..BodyEnd(data, open + 1)]
  }

  function EndOf(data: seq<byte>, open: nat): (end: nat)
    requires open <= |data|
    ensures open <= end <= |data|
    ensures open < |data| ==> end > open
  {
    if open == |data| then open else PastOne(data, BodyEnd(data, open + 1), QUOTE)
  }

  function StringBytes(data: seq<byte>, pos: nat): seq<byte>
    requires pos <= |data|
  {
    BytesOf(data, QuoteFrom(data, pos))
  }

  function StringEnd(data: seq<byte>, pos: nat): (end: nat)
    requires pos <= |data|
    ensures pos <= end <= |data|
    ensures pos < |data| ==> end > pos
  {
    EndOf(data, QuoteFrom(data, pos))
  }

  /** Past the bracket that balances `depth` open ones; strings are stepped over whole. */
  function ToClose(data: seq<byte>, pos: nat, depth: nat, open: byte, close: byte): (end: nat)
    requires pos <= |data|
    ensures pos <= end <= |data|
    decreases |data| - pos
  {
    if pos >= |data| || depth == 0 then pos
    else if data[pos] == open then ToClose(data, pos + 1, depth + 1, open, close)
    else if data[pos] == close then (if depth == 1 then pos + 1 else ToClose(data, pos + 1, depth - 1, open, close))
    else if data[pos] == QUOTE then ToClose(data, StringEnd(data, pos), depth, open, close)
    else ToClose(data, pos + 1, depth, open, close)
  }

  predicate StartsLiteral(b: byte) {
    b == 0x74 || b == 0x66 || b == 0x6E
  }

  /** Past one value whose first byte is at `pos`. */
  function TokenEnd(data: seq<byte>, pos: nat): (end: nat)
    requires pos < |data|
    ensures pos <= end <= |data|
  {
    var b := data[pos];
    if b == OPEN_BRACE then ToClose(data, pos + 1, 1, OPEN_BRACE, CLOSE_BRACE)
    else if b == OPEN_BRACKET then ToClose(data, pos + 1, 1, OPEN_BRACKET, CLOSE_BRACKET)
    else if b == QUOTE then StringEnd(data, pos)
    else if StartsLiteral(b) then LiteralEnd(data, pos)
    else NumberEnd(data, pos)
  }

  function ValueEnd(data: seq<byte>, pos: nat): (end: nat)
    requires pos <= |data|
    ensures pos <= end <= |data|
  {
    var at := WsEnd(data, pos);
    if at >= |data| then at else TokenEnd(data, at)
  }

  /** The value that belongs to the key whose quote is at `open`. */
  function ValueOf(data: seq<byte>, open: nat): (at: nat)
    requires open <= |data|
    ensures open <= at <= |data|
    ensures open < |data| ==> at > open
  {
    if open == |data| then open else WsEnd(data, PastOne(data, WsEnd(data, EndOf(data, open)), COLON))
  }

  datatype Field = Field(key: seq<byte>, value: seq<byte>)

  /** Alternating the two scanners, from one key to the next, until a key is empty. */
  function WalkFrom(data: seq<byte>, open: nat): seq<Field>
    requires open <= |data|
    decreases |data| - open
  {
    if BytesOf(data, open) == [] then []
    else
      var at := ValueOf(data, open);
      var past := ValueEnd(data, at);
      [Field(BytesOf(data, open), data[at..past])] + WalkFrom(data, QuoteFrom(data, past))
  }

  function Walk(data: seq<byte>, pos: nat): seq<Field>
    requires pos <= |data|
  {
    WalkFrom(data, QuoteFrom(data, pos))
  }

  datatype Slice = Slice(inner: seq<byte>, past: nat)

  /** The bytes between the braces of the object that starts at `open`, and the position past it. */
  function CutAt(data: seq<byte>, open: nat): (r: Option<Slice>)
    requires open <= |data|
    ensures r.Some? ==> open < r.value.past <= |data|
  {
    if open >= |data| || data[open] != OPEN_BRACE then None
    else
      var past := ToClose(data, open + 1, 1, OPEN_BRACE, CLOSE_BRACE);
      if past <= open + 1 || data[past - 1] != CLOSE_BRACE then None else Some(Slice(data[open + 1..past - 1], past))
  }

  /** How many brackets the scan leaves open: none when it has found the one that balances. */
  function StillOpen(data: seq<byte>, pos: nat, depth: nat, open: byte, close: byte): (left: nat)
    requires pos <= |data|
    decreases |data| - pos
  {
    if pos >= |data| || depth == 0 then depth
    else if data[pos] == open then StillOpen(data, pos + 1, depth + 1, open, close)
    else if data[pos] == close then (if depth == 1 then 0 else StillOpen(data, pos + 1, depth - 1, open, close))
    else if data[pos] == QUOTE then StillOpen(data, StringEnd(data, pos), depth, open, close)
    else StillOpen(data, pos + 1, depth, open, close)
  }

  /** The scan stops just past the bracket that balances, or at the end of the data. */
  lemma {:induction false} StopsAtClose(data: seq<byte>, pos: nat, depth: nat, open: byte, close: byte)
    requires pos <= |data| && depth > 0
    ensures var end := ToClose(data, pos, depth, open, close);
            if StillOpen(data, pos, depth, open, close) > 0 then end == |data| else pos < end && data[end - 1] == close
    decreases |data| - pos
  {
    if pos < |data| {
      if data[pos] == open {
        StopsAtClose(data, pos + 1, depth + 1, open, close);
      } else if data[pos] == close {
        if depth > 1 {
          StopsAtClose(data, pos + 1, depth - 1, open, close);
        }
      } else if data[pos] == QUOTE {
        StopsAtClose(data, StringEnd(data, pos), depth, open, close);
      } else {
        StopsAtClose(data, pos + 1, depth, open, close);
      }
    }
  }

  /** The object that starts at `open` is closed before the data ends. */
  predicate Closes(data: seq<byte>, open: nat)
    requires open < |data|
  {
    StillOpen(data, open + 1, 1, OPEN_BRACE, CLOSE_BRACE) == 0
  }

  /** An object is cut out exactly when it closes, or when the data happen to end in a closing brace: then it
    * is everything up to that brace, whatever the brace closes. */
  lemma CutIff(data: seq<byte>, open: nat)
    requires open < |data| && data[open] == OPEN_BRACE
    ensures CutAt(data, open).Some? <==> Closes(data, open) || data[|data| - 1] == CLOSE_BRACE
    ensures !Closes(data, open) && CutAt(data, open).Some? ==>
              CutAt(data, open).value == Slice(data[open + 1..|data| - 1], |data|)
  {
    StopsAtClose(data, open + 1, 1, OPEN_BRACE, CLOSE_BRACE);
  }

  /** `{{}` never closes, and is cut out. */
  lemma UnclosedIsCut()
    ensures var data := [OPEN_BRACE, OPEN_BRACE, CLOSE_BRACE];
            !Closes(data, 0) && CutAt(data, 0) == Some(Slice([OPEN_BRACE], 3))
  {
    var data := [OPEN_BRACE, OPEN_BRACE, CLOSE_BRACE];
    assert StillOpen(data, 2, 2, OPEN_BRACE, CLOSE_BRACE) == StillOpen(data, 3, 1, OPEN_BRACE, CLOSE_BRACE) == 1;
    assert data[1..2] == [OPEN_BRACE];
    CutIff(data, 0);
  }

  function ObjectAt(data: seq<byte>, pos: nat): Option<Slice>
    requires pos <= |data|
  {
    CutAt(data, WsEnd(data, pos))
  }

  /** The objects still to come in an array already entered, from a byte that is no whitespace. */
  function HandOut(data: seq<byte>, at: nat): seq<seq<byte>>
    requires at <= |data|
    decreases |data| - at
  {
    if at >= |data| || data[at] == CLOSE_BRACKET then []
    else if data[at] == COMMA then HandOut(data, WsEnd(data, at + 1))
    else
      match CutAt(data, at)
      case None => []
      case Some(o) => [o.inner] + HandOut(data, WsEnd(data, o.past))
  }

  function ObjectsFrom(data: seq<byte>, pos: nat): seq<seq<byte>>
    requires pos <= |data|
  {
    HandOut(data, WsEnd(data, pos))
  }

  // ------------------------------------------------------------------------------------------------
  // The scanners
  // ------------------------------------------------------------------------------------------------

  /** `skip_ws`. */
  method SkipWs(data: seq<byte>, start: nat) returns (pos: nat)
    requires start <= |data|
    ensures pos == WsEnd(data, start)
  {
    pos := start;
    while pos < |data| && IsWs(data[pos])
      invariant start <= pos <= |data| && WsEnd(data, pos) == WsEnd(data, start)
    {
      pos := pos + 1;
    }
  }

  /** `skip_literal`. */
  method SkipLiteral(data: seq<byte>, start: nat) returns (pos: nat)
    requires start <= |data|
    ensures pos == LiteralEnd(data, start)
  {
    pos := start;
    while pos < |data| && IsAlpha(data[pos])
      invariant start <= pos <= |data| && LiteralEnd(data, pos) == LiteralEnd(data, start)
    {
      pos := pos + 1;
    }
  }

  /** `skip_number`. */
  method SkipNumber(data: seq<byte>, start: nat) returns (pos: nat)
    requires start <= |data|
    ensures pos == NumberEnd(data, start)
  {
    pos := start;
    while pos < |data| && IsNumberByte(data[pos])
      invariant start <= pos <= |data| && NumberEnd(data, pos) == NumberEnd(data, start)
    {
      pos := pos + 1;
    }
  }

  /** `parse_string_bytes`. */
  method ParseStringBytes(data: seq<byte>, start: nat) returns (bytes: seq<byte>, pos: nat)
    requires start <= |data|
    ensures bytes == StringBytes(data, start) && pos == StringEnd(data, start)
  {
    pos := start;
    while pos < |data| && data[pos] != QUOTE
      invariant start <= pos <= |data| && QuoteFrom(data, pos) == QuoteFrom(data, start)
    {
      pos := pos + 1;
    }
    if pos >= |data| {
      return [], pos;
    }
    pos := pos + 1;
    var body := pos;
    while pos < |data| && data[pos] != QUOTE
      invariant body <= pos <= |data| && BodyEnd(data, pos) == BodyEnd(data, body)
    {
      if data[pos] == BACKSLASH && pos + 1 < |data| {
        pos := pos + 2;
      } else {
        pos := pos + 1;
      }
    }
    bytes := data[body..pos];
    if pos < |data| {
      pos := pos + 1;
    }
  }

  /** `skip_to_close`. */
  method SkipToClose(data: seq<byte>, start: nat, already: nat, open: byte, close: byte) returns (pos: nat)
    requires start <= |data|
    ensures pos == ToClose(data, start, already, open, close)
  {
    var depth := already;
    pos := start;
    while pos < |data| && depth > 0
      invariant start <= pos <= |data|
      invariant ToClose(data, pos, depth, open, close) == ToClose(data, start, already, open, close)
      decreases |data| - pos
    {
      var b := data[pos];
      if b == open {
        depth := depth + 1;
      } else if b == close {
        depth := depth - 1;
        if depth == 0 {
          return pos + 1;
        }
      } else if b == QUOTE {
        var _, next := ParseStringBytes(data, pos);
        pos := next;
        continue;
      }
      pos := pos + 1;
    }
  }

  /** `object_at`. */
  method FindObject(data: seq<byte>, pos: nat) returns (r: Option<Slice>)
    requires pos <= |data|
    ensures r == ObjectAt(data, pos)
  {
    var open := SkipWs(data, pos);
    if open >= |data| || data[open] != OPEN_BRACE {
      return None;
    }
    var past := SkipToClose(data, open + 1, 1, OPEN_BRACE, CLOSE_BRACE);
    if past <= open + 1 || data[past - 1] != CLOSE_BRACE {
      return None;
    }
    return Some(Slice(data[open + 1..past - 1], past));
  }

  /** `skip_value`. */
  method SkipValue(data: seq<byte>, start: nat) returns (pos: nat)
    requires start <= |data|
    ensures pos == ValueEnd(data, start)
  {
    pos := SkipWs(data, start);
    if pos >= |data| {
      return;
    }
    var b := data[pos];
    if b == OPEN_BRACE {
      pos := SkipToClose(data, pos + 1, 1, OPEN_BRACE, CLOSE_BRACE);
    } else if b == OPEN_BRACKET {
      pos := SkipToClose(data, pos + 1, 1, OPEN_BRACKET, CLOSE_BRACKET);
    } else if b == QUOTE {
      var _, next := ParseStringBytes(data, pos);
      pos := next;
    } else if StartsLiteral(b) {
      pos := SkipLiteral(data, pos);
    } else {
      pos := SkipNumber(data, pos);
    }
  }

  /** `next_field`. */
  method NextField(data: seq<byte>, start: nat) returns (key: seq<byte>, pos: nat)
    requires start <= |data|
    ensures key == BytesOf(data, QuoteFrom(data, start)) && pos == ValueOf(data, QuoteFrom(data, start))
  {
    pos := start;
    while pos < |data| && data[pos] != QUOTE
      invariant start <= pos <= |data| && QuoteFrom(data, pos) == QuoteFrom(data, start)
    {
      pos := pos + 1;
    }
    if pos >= |data| {
      return [], pos;
    }
    key, pos := ParseStringBytes(data, pos);
    pos := SkipWs(data, pos);
    if pos < |data| && data[pos] == COLON {
      pos := pos + 1;
    }
    pos := SkipWs(data, pos);
  }

  /** A decoder's loop over the members of an object: it ends on every input, and stays inside it. */
  method Members(data: seq<byte>) returns (fields: seq<Field>)
    ensures fields == Walk(data, 0)
  {
    fields := [];
    var pos := 0;
    while true
      invariant pos <= |data| && Walk(data, 0) == fields + Walk(data, pos)
      decreases |data| - pos
    {
      var key, at := NextField(data, pos);
      if key == [] {
        return;
      }
      var past := SkipValue(data, at);
      var field := Field(key, data[at..past]);
      assert Walk(data, pos) == [field] + Walk(data, past);
      Reassociate(fields, field, Walk(data, past));
      fields := fields + [field];
      pos := past;
    }
  }

  lemma Reassociate(a: seq<Field>, f: Field, b: seq<Field>)
    ensures a + ([f] + b) == (a + [f]) + b
  {
  }

  /** `Objects`: what is iterated over, and how far the iteration has got. */
  class Objects {
    const data: seq<byte>
    var pos: nat

    ghost predicate Valid()
      reads this
    {
      pos <= |data|
    }

    /** The objects not yet handed out. */
    ghost function Remaining(): seq<seq<byte>>
      reads this
      requires Valid()
    {
      ObjectsFrom(data, pos)
    }

    constructor (data: seq<byte>, pos: nat)
      requires pos <= |data|
      ensures Valid() && this.data == data && Remaining() == ObjectsFrom(data, pos)
    {
      this.data := data;
      this.pos := pos;
    }

    /** `next`: the next object, until none remains. */
    method Next() returns (next: Option<seq<byte>>)
      requires Valid()
      modifies this`pos
      ensures Valid() && old(pos) <= pos
      ensures next.Some? ==> old(Remaining()) == [next.value] + Remaining()
      ensures next.None? ==> old(Remaining()) == []
    {
      ghost var before := Remaining();
      while true
        invariant Valid() && old(pos) <= pos && Remaining() == before
        decreases |data| - pos
      {
        pos := SkipWs(data, pos);
        if pos >= |data| || data[pos] == CLOSE_BRACKET {
          return None;
        }
        if data[pos] == COMMA {
          pos := pos + 1;
          continue;
        }
        var found := FindObject(data, pos);
        if found.None? {
          return None;
        }
        pos := found.value.past;
        return Some(found.value.inner);
      }
    }
  }
}

/** Level arrays: `[["price","qty"], ...]` read in place, one pass, into a snapshot side or a delta side. */
module CryptoLevels {
  import opened Wrappers
  import opened Bytes
  import opened IntegerParser
  import opened JsonScan
  import PlainDecimal
  import DynamicExtractor

  const WIRE_MAX_DEPTH: nat := 10
  const WIRE_MAX_DELTA_LEVELS: nat := 32

  datatype Key = LevelPrice | LevelQuantity | Bids | Asks | SeqId | PrevSeqId

  datatype CryptoError =
    | BadField(key: Key, err: ParseErr)
    | Missing(key: Key)
    | SymbolMismatch
    | DeltaOverflow

  datatype Level = Level(price: int, qty: int)

  /** What a decoder is pinned to: a symbol, and how prices and sizes are read. */
  datatype Instrument = Instrument(
    symbol: seq<byte>,
    price: seq<byte> -> DynamicExtractor.Read,
    qty: seq<byte> -> DynamicExtractor.Read
  )

  /** An instrument with the two decimal scales of its venue. */
  function NewInstrument(symbol: seq<byte>, priceDecimals: nat, qtyDecimals: nat): Instrument {
    Instrument(symbol, bytes => PlainDecimal.Price(bytes, priceDecimals), bytes => PlainDecimal.Qty(bytes, qtyDecimals))
  }

  // ------------------------------------------------------------------------------------------------
  // Scalars
  // ------------------------------------------------------------------------------------------------

  /** The bytes of a scalar that starts at `at`, quoted or not, and the position past it. */
  function ScalarBytes(data: seq<byte>, at: nat): seq<byte>
    requires at <= |data|
  {
    if at == |data| then []
    else if data[at] == QUOTE then BytesOf(data, at)
    else if data[at] == 0x6E then []
    else data[at..NumberEnd(data, at)]
  }

  function ScalarEnd(data: seq<byte>, at: nat): (end: nat)
    requires at <= |data|
    ensures at <= end <= |data|
  {
    if at == |data| then at
    else if data[at] == QUOTE then EndOf(data, at)
    else if data[at] == 0x6E then LiteralEnd(data, at)
    else NumberEnd(data, at)
  }

  /** `parse_scalar_bytes`. */
  method ParseScalarBytes(data: seq<byte>, start: nat) returns (bytes: seq<byte>, pos: nat)
    requires start <= |data|
    ensures bytes == ScalarBytes(data, WsEnd(data, start)) && pos == ScalarEnd(data, WsEnd(data, start))
  {
    var at := SkipWs(data, start);
    if at >= |data| {
      return [], at;
    }
    if data[at] == QUOTE {
      bytes, pos := ParseStringBytes(data, at);
      return;
    }
    if data[at] == 0x6E {
      pos := SkipLiteral(data, at);
      return [], pos;
    }
    pos := SkipNumber(data, at);
    bytes := data[at..pos];
  }

  /** The leading digits, saturating at the width of the word. */
  function Saturating(s: seq<byte>, acc: nat): nat
    decreases |s|
  {
    if s == [] || !IsDigit(s[0]) then acc
    else Saturating(s[1..], Saturate(Saturate(10 * acc) + (s[0] - ZERO)))
  }

  function Saturate(x: nat): nat {
    if x >= U64_LIMIT then U64_LIMIT - 1 else x
  }

  /** The digits a scalar begins with. */
  function LeadingDigits(s: seq<byte>): (digits: seq<byte>)
    ensures AllDigits(digits)
  {
    if s == [] || !IsDigit(s[0]) then [] else [s[0]] + LeadingDigits(s[1..])
  }

  lemma SaturatesOnce(x: nat, d: nat)
    ensures Saturate(Saturate(10 * Saturate(x)) + d) == Saturate(10 * x + d)
  {
  }

  /** One more digit in front. */
  lemma DigitInFront(x: nat, b: byte, rest: seq<byte>)
    requires IsDigit(b) && AllDigits(rest)
    ensures AllDigits([b] + rest)
    ensures (10 * x + (b - ZERO)) * Pow10(|rest|) + DigitsValue(rest) ==
            x * Pow10(|[b] + rest|) + DigitsValue([b] + rest)
  {
    assert [b][..0] == [];
    assert DigitsValue([b]) == b - ZERO;
    DigitsValueConcat([b], rest);
    assert (10 * x + (b - ZERO)) * Pow10(|rest|) == x * (10 * Pow10(|rest|)) + (b - ZERO) * Pow10(|rest|);
  }

  lemma {:induction false} SaturatesFrom(s: seq<byte>, x: nat)
    ensures Saturating(s, Saturate(x)) ==
            Saturate(x * Pow10(|LeadingDigits(s)|) + DigitsValue(LeadingDigits(s)))
    decreases |s|
  {
    if s != [] && IsDigit(s[0]) {
      var d, rest := s[0] - ZERO, LeadingDigits(s[1..]);
      SaturatesOnce(x, d);
      SaturatesFrom(s[1..], 10 * x + d);
      DigitInFront(x, s[0], rest);
    } else {
      assert Pow10(0) == 1;
    }
  }

  /** Saturating at every digit comes to saturating once: the smaller of the number and the last `u64`. */
  lemma SaturatesAtTheLimit(s: seq<byte>)
    ensures Saturating(s, 0) == Saturate(DigitsValue(LeadingDigits(s)))
  {
    SaturatesFrom(s, 0);
  }

  /** `parse_scalar_u64`. */
  method ParseScalarU64(data: seq<byte>, start: nat) returns (value: nat, pos: nat)
    requires start <= |data|
    ensures value == Saturating(ScalarBytes(data, WsEnd(data, start)), 0)
    ensures value == Saturate(DigitsValue(LeadingDigits(ScalarBytes(data, WsEnd(data, start)))))
    ensures pos == ScalarEnd(data, WsEnd(data, start))
  {
    var bytes, next := ParseScalarBytes(data, start);
    value, pos := 0, next;
    var i := 0;
    while i < |bytes| && IsDigit(bytes[i])
      invariant 0 <= i <= |bytes| && Saturating(bytes[i..], value) == Saturating(bytes, 0)
    {
      assert bytes[i..][1..] == bytes[i + 1..];
      value := Saturate(Saturate(10 * value) + (bytes[i] - ZERO));
      i := i + 1;
    }
    SaturatesAtTheLimit(bytes);
  }

  // ------------------------------------------------------------------------------------------------
  // One level
  // ------------------------------------------------------------------------------------------------

  function MakeLevel(inst: Instrument, price: seq<byte>, qty: seq<byte>): Result<Level, CryptoError> {
    match inst.price(price)
    case Err(e) => Err(BadField(LevelPrice, e))
    case Ok(p) =>
      match inst.qty(qty)
      case Err(e) => Err(BadField(LevelQuantity, e))
      case Ok(q) => Ok(Level(p, q))
  }

  /** A level read at the scales of a venue: each number is the one its text names exactly when its count of
    * units fits an `i64`, and a quantity is never below zero. */
  lemma LevelIsExactIff(symbol: seq<byte>, priceDecimals: nat, qtyDecimals: nat, price: seq<byte>, qty: seq<byte>)
    requires MakeLevel(NewInstrument(symbol, priceDecimals, qtyDecimals), price, qty).Ok?
    ensures var level := MakeLevel(NewInstrument(symbol, priceDecimals, qtyDecimals), price, qty).value;
            DynamicExtractor.Body(PlainDecimal.Rewritten(price)).Valid() &&
            DynamicExtractor.Body(PlainDecimal.Rewritten(qty)).Valid() &&
            (PlainDecimal.DenotesBytes(price, level.price, priceDecimals) <==>
             -I64_LIMIT <= PlainDecimal.Units(price, priceDecimals) < I64_LIMIT) &&
            (PlainDecimal.DenotesBytes(qty, level.qty, qtyDecimals) <==>
             0 <= PlainDecimal.Units(qty, qtyDecimals) < I64_LIMIT) &&
            level.qty >= 0
  {
    PlainDecimal.PriceIsExactIff(price, priceDecimals);
    PlainDecimal.QtyIsExactIff(qty, qtyDecimals);
  }

  /** The positions of the two scalars of the pair whose bracket is at `pos`. */
  function PriceAt(data: seq<byte>, pos: nat): (at: nat)
    requires pos < |data|
    ensures pos < at <= |data|
  {
    WsEnd(data, pos + 1)
  }

  function QtyAt(data: seq<byte>, pos: nat): (at: nat)
    requires pos < |data|
    ensures pos < at <= |data|
  {
    WsEnd(data, PastOne(data, WsEnd(data, ScalarEnd(data, PriceAt(data, pos))), COMMA))
  }

  function PairLevel(inst: Instrument, data: seq<byte>, pos: nat): Result<Level, CryptoError>
    requires pos < |data|
  {
    MakeLevel(inst, ScalarBytes(data, PriceAt(data, pos)), ScalarBytes(data, QtyAt(data, pos)))
  }

  /** The end of a level, however many elements follow its first two. */
  function PairEnd(data: seq<byte>, pos: nat): (end: nat)
    requires pos < |data|
    ensures pos < end <= |data|
  {
    var at := WsEnd(data, ScalarEnd(data, QtyAt(data, pos)));
    if at < |data| && data[at] != CLOSE_BRACKET then ToClose(data, at, 1, OPEN_BRACKET, CLOSE_BRACKET)
    else PastOne(data, at, CLOSE_BRACKET)
  }

  /** `pair`. */
  method ReadPair(inst: Instrument, data: seq<byte>, start: nat) returns (r: Result<Level, CryptoError>, pos: nat)
    requires start < |data|
    ensures r == PairLevel(inst, data, start)
    ensures r.Ok? ==> pos == PairEnd(data, start)
  {
    var priceBytes, next := ParseScalarBytes(data, start + 1);
    pos := next;
    var price := inst.price(priceBytes);
    if price.Err? {
      return Err(BadField(LevelPrice, price.error)), pos;
    }
    pos := SkipWs(data, pos);
    if pos < |data| && data[pos] == COMMA {
      pos := pos + 1;
    }
    var qtyBytes, past := ParseScalarBytes(data, pos);
    var qty := inst.qty(qtyBytes);
    if qty.Err? {
      return Err(BadField(LevelQuantity, qty.error)), pos;
    }
    pos := SkipWs(data, past);
    if pos < |data| && data[pos] != CLOSE_BRACKET {
      pos := SkipToClose(data, pos, 1, OPEN_BRACKET, CLOSE_BRACKET);
    } else if pos < |data| {
      pos := pos + 1;
    }
    r := Ok(Level(price.value, qty.value));
  }

  // ------------------------------------------------------------------------------------------------
  // A side
  // ------------------------------------------------------------------------------------------------

  datatype Side = Side(levels: seq<Level>, past: nat)

  /** The next bracket, either way: whitespace, commas and anything else between levels is passed over. */
  function BracketFrom(data: seq<byte>, pos: nat): (at: nat)
    requires pos <= |data|
    ensures pos <= at <= |data|
    ensures at < |data| ==> data[at] == OPEN_BRACKET || data[at] == CLOSE_BRACKET
    decreases |data| - pos
  {
    if pos < |data| && data[pos] != OPEN_BRACKET && data[pos] != CLOSE_BRACKET then BracketFrom(data, pos + 1) else pos
  }

  predicate LevelAt(data: seq<byte>, at: nat) {
    at < |data| && data[at] == OPEN_BRACKET
  }

  /** A delta side from `pos` on, `levels` having been read, for a buffer of `room`. */
  function DeltaFrom(
    inst: Instrument, data: seq<byte>, pos: nat, levels: seq<Level>, room: nat): (r: Result<Side, CryptoError>)
    requires pos <= |data|
    ensures r.Ok? ==> pos <= r.value.past <= |data|
    decreases |data| - pos
  {
    var at := BracketFrom(data, pos);
    if !LevelAt(data, at) then Ok(Side(levels, PastOne(data, at, CLOSE_BRACKET)))
    else if |levels| == room then Err(DeltaOverflow)
    else
      match PairLevel(inst, data, at)
      case Err(e) => Err(e)
      case Ok(level) => DeltaFrom(inst, data, PairEnd(data, at), levels + [level], room)
  }

  /** What `delta_levels` reads; where there is no array the rest of the data is given up. */
  function DeltaSide(inst: Instrument, data: seq<byte>, pos: nat, room: nat): (r: Result<Side, CryptoError>)
    requires pos <= |data|
    ensures r.Ok? ==> pos <= r.value.past <= |data|
  {
    var open := WsEnd(data, pos);
    if LevelAt(data, open) then DeltaFrom(inst, data, open + 1, [], room) else Ok(Side([], |data|))
  }

  /** A snapshot side; once the book is full what is left is skipped, not parsed. */
  function BookFrom(inst: Instrument, data: seq<byte>, pos: nat, levels: seq<Level>): Result<Side, CryptoError>
    requires pos <= |data|
    decreases |data| - pos
  {
    if |levels| >= WIRE_MAX_DEPTH then Ok(Side(levels, ToClose(data, pos, 1, OPEN_BRACKET, CLOSE_BRACKET)))
    else
      var at := BracketFrom(data, pos);
      if !LevelAt(data, at) then Ok(Side(levels, PastOne(data, at, CLOSE_BRACKET)))
      else
        match PairLevel(inst, data, at)
        case Err(e) => Err(e)
        case Ok(level) => BookFrom(inst, data, PairEnd(data, at), levels + [level])
  }

  function BookSide(inst: Instrument, data: seq<byte>, pos: nat): Result<Side, CryptoError>
    requires pos <= |data|
  {
    var open := WsEnd(data, pos);
    if LevelAt(data, open) then BookFrom(inst, data, open + 1, []) else Ok(Side([], |data|))
  }

  /** How many levels are worth quoting: those after the last with a positive quantity are left off. */
  function Depth(levels: seq<Level>): (d: nat)
    ensures d <= |levels|
    ensures d > 0 ==> levels[d - 1].qty > 0
    ensures forall i :: d <= i < |levels| ==> levels[i].qty <= 0
  {
    if levels == [] then 0
    else if levels[|levels| - 1].qty > 0 then |levels|
    else Depth(levels[..|levels| - 1])
  }

  /** The levels read stand in the array from `from` on. */
  predicate Holds(out: array<Level>, from: nat, levels: seq<Level>)
    reads out
  {
    from + |levels| <= out.Length && forall i :: 0 <= i < |levels| ==> out[from + i] == levels[i]
  }

  /** The byte at `pos` is passed over on the way to the next bracket. */
  lemma SameBracket(data: seq<byte>, pos: nat)
    requires pos <= |data|
    ensures BracketFrom(data, WsEnd(data, pos)) == BracketFrom(data, pos)
    decreases |data| - pos
  {
    if pos < |data| && IsWs(data[pos]) {
      SameBracket(data, pos + 1);
    }
  }

  /** The outer loop of both readers: on to the next bracket, one byte at a time. */
  method NextBracket(data: seq<byte>, start: nat) returns (pos: nat)
    requires start <= |data|
    ensures pos == BracketFrom(data, start)
  {
    pos := start;
    while true
      invariant start <= pos <= |data| && BracketFrom(data, pos) == BracketFrom(data, start)
      decreases |data| - pos
    {
      SameBracket(data, pos);
      pos := SkipWs(data, pos);
      if pos >= |data| || data[pos] == CLOSE_BRACKET || data[pos] == OPEN_BRACKET {
        return;
      }
      pos := pos + 1;
    }
  }

  /** The next level goes into the next free place. */
  method Store(out: array<Level>, from: nat, written: nat, level: Level, ghost levels: seq<Level>)
    requires written == |levels| && Holds(out, from, levels) && from + written < out.Length
    modifies out
    ensures Holds(out, from, levels + [level])
    ensures forall i :: 0 <= i < from ==> out[i] == old(out[i])
  {
    out[from + written] := level;
  }

  /** `delta_levels`, into the part of the shared array from `from` on. */
  method DeltaLevels(inst: Instrument, data: seq<byte>, start: nat, out: array<Level>, from: nat)
    returns (r: Result<nat, CryptoError>, pos: nat)
    requires start <= |data| && from <= out.Length
    modifies out
    ensures forall i :: 0 <= i < from ==> out[i] == old(out[i])
    ensures r.Err? ==> DeltaSide(inst, data, start, out.Length - from) == Err(r.error)
    ensures r.Ok? ==> DeltaSide(inst, data, start, out.Length - from).Ok?
    ensures r.Ok? ==>
              var side := DeltaSide(inst, data, start, out.Length - from).value;
              Holds(out, from, side.levels) && r.value == |side.levels| && pos == side.past
  {
    ghost var side := DeltaSide(inst, data, start, out.Length - from);
    pos := WsEnd(data, start);
    if !(pos < |data| && data[pos] == OPEN_BRACKET) {
      return Ok(0), |data|;
    }
    pos := pos + 1;
    var written := 0;
    ghost var levels: seq<Level> := [];
    while true
      invariant pos <= |data| && written == |levels| && Holds(out, from, levels)
      invariant forall i :: 0 <= i < from ==> out[i] == old(out[i])
      invariant DeltaFrom(inst, data, pos, levels, out.Length - from) == side
      decreases |data| - pos
    {
      var at := NextBracket(data, pos);
      if !(at < |data| && data[at] == OPEN_BRACKET) {
        pos := if at < |data| then at + 1 else at;
        return Ok(written), pos;
      }
      if from + written == out.Length {
        return Err(DeltaOverflow), pos;
      }
      var level, next := ReadPair(inst, data, at);
      if level.Err? {
        return Err(level.error), pos;
      }
      Store(out, from, written, level.value, levels);
      levels := levels + [level.value];
      written := written + 1;
      pos := next;
    }
  }

  lemma DepthStep(levels: seq<Level>, level: Level)
    ensures Depth(levels + [level]) == if level.qty > 0 then |levels| + 1 else Depth(levels)
  {
    assert (levels + [level])[..|levels|] == levels;
  }

  /** `quote_levels`, the depth counted as the levels go by. */
  method QuoteLevels(inst: Instrument, data: seq<byte>, start: nat, out: array<Level>)
    returns (r: Result<nat, CryptoError>, pos: nat)
    requires start <= |data| && out.Length == WIRE_MAX_DEPTH
    modifies out
    ensures r.Err? ==> BookSide(inst, data, start) == Err(r.error)
    ensures r.Ok? ==> BookSide(inst, data, start).Ok?
    ensures r.Ok? ==>
              var side := BookSide(inst, data, start).value;
              Holds(out, 0, side.levels) && r.value == Depth(side.levels) && pos == side.past
  {
    ghost var side := BookSide(inst, data, start);
    pos := WsEnd(data, start);
    if !(pos < |data| && data[pos] == OPEN_BRACKET) {
      return Ok(0), |data|;
    }
    pos := pos + 1;
    var written, depth := 0, 0;
    ghost var levels: seq<Level> := [];
    while written < WIRE_MAX_DEPTH
      invariant pos <= |data| && written == |levels| && Holds(out, 0, levels) && depth == Depth(levels)
      invariant BookFrom(inst, data, pos, levels) == side
      decreases |data| - pos
    {
      var at := NextBracket(data, pos);
      if !(at < |data| && data[at] == OPEN_BRACKET) {
        pos := if at < |data| then at + 1 else at;
        return Ok(depth), pos;
      }
      var level, next := ReadPair(inst, data, at);
      if level.Err? {
        return Err(level.error), pos;
      }
      DepthStep(levels, level.value);
      Store(out, 0, written, level.value, levels);
      levels := levels + [level.value];
      written := written + 1;
      if level.value.qty > 0 {
        depth := written;
      }
      pos := next;
    }
    pos := SkipToClose(data, pos, 1, OPEN_BRACKET, CLOSE_BRACKET);
    r := Ok(depth);
  }
}

/** What the level readers make of every well-formed array of level arrays. */
module LevelGrammar {
  import opened Wrappers
  import opened Bytes
  import opened JsonScan
  import opened JsonGrammar
  import opened Placement
  import opened CryptoLevels

  /** A price or a size may be quoted or bare. */
  predicate Scalar(v: Value) {
    v.String? || v.Number?
  }

  function ScalarText(v: Value): seq<byte>
    requires Scalar(v)
  {
    if v.String? then v.raw else v.text
  }

  /** A price, a quantity, and whatever else the venue puts behind them. */
  predicate IsLevel(v: Value) {
    v.Array? && v.items.Item? && v.items.rest.Item? && Scalar(v.items.value) && Scalar(v.items.rest.value)
  }

  predicate AllLevels(items: Items) {
    items.Item? ==> IsLevel(items.value) && AllLevels(items.rest)
  }

  function LevelOf(inst: Instrument, v: Value): Result<Level, CryptoError>
    requires IsLevel(v)
  {
    MakeLevel(inst, ScalarText(v.items.value), ScalarText(v.items.rest.value))
  }

  // ------------------------------------------------------------------------------------------------
  // One level
  // ------------------------------------------------------------------------------------------------

  /** What may follow a bare number in an array. */
  predicate EndsNumber(data: seq<byte>, pos: nat) {
    pos < |data| ==> !IsNumberByte(data[pos])
  }

  lemma ScalarReads(data: seq<byte>, pos: nat, v: Value)
    requires ValueAt(data, pos, v) && WellFormed(v) && Scalar(v) && EndsNumber(data, pos + Length(v))
    ensures pos + Length(v) <= |data|
    ensures ScalarBytes(data, pos) == ScalarText(v) && ScalarEnd(data, pos) == pos + Length(v)
  {
    FirstByte(data, pos, v);
    if v.String? {
      StringPasses(data, pos, v.raw);
    } else {
      assert v.text[0] == data[pos];
      NumberEnds(data, pos, v.text);
      AtIsSlice(data, pos, v.text);
    }
  }

  /** `null` is read as no text at all, and passed over. */
  lemma NullReads(data: seq<byte>, pos: nat)
    requires At(data, pos, [0x6E, 0x75, 0x6C, 0x6C])
    requires pos + 4 == |data| || !IsAlpha(data[pos + 4])
    ensures ScalarBytes(data, pos) == [] && ScalarEnd(data, pos) == pos + 4
  {
    var text: seq<byte> := [0x6E, 0x75, 0x6C, 0x6C];
    assert data[pos] == text[0];
    LiteralEnds(data, pos, text);
  }

  /** What follows an element: whitespace, then a comma or the closing bracket. */
  lemma AfterItem(data: seq<byte>, post: nat, ws: seq<byte>)
    requires At(data, post, ws) && AllWs(ws)
    requires ByteAt(data, post + |ws|, COMMA) || ByteAt(data, post + |ws|, CLOSE_BRACKET)
    ensures EndsNumber(data, post) && WsEnd(data, post) == post + |ws|
  {
    WsPasses(data, post, ws);
    if ws != [] {
      assert ws[0] == data[post];
    }
  }

  /** Where the parts of a level stand. */
  datatype Places = Places(price: nat, comma: nat, qty: nat, third: nat, end: nat)

  function PlacesOf(pos: nat, v: Value): Places
    requires IsLevel(v)
  {
    var first, second := v.items, v.items.rest;
    var price := pos + 1 + |v.lead| + |first.pre|;
    var comma := price + Length(first.value) + |first.post|;
    var qty := comma + 1 + |second.pre|;
    var third := qty + Length(second.value) + |second.post|;
    Places(price, comma, qty, third, third + ItemsLength(second.rest, false))
  }

  lemma ItemParts(data: seq<byte>, pos: nat, items: Items, first: bool)
    requires items.Item? && ItemsAt(data, pos, items, first)
    ensures var pre := pos + SeparatorLength(first);
            var value := pre + |items.pre|;
            var post := value + Length(items.value);
            && (first || ByteAt(data, pos, COMMA)) && At(data, pre, items.pre) && ValueAt(data, value, items.value)
            && At(data, post, items.post) && ItemsAt(data, post + |items.post|, items.rest, false)
            && post + |items.post| + ItemsLength(items.rest, false) == pos + ItemsLength(items, first)
  {
  }

  lemma ArrayParts(data: seq<byte>, pos: nat, v: Value)
    requires v.Array? && ValueAt(data, pos, v)
    ensures ByteAt(data, pos, OPEN_BRACKET) && At(data, pos + 1, v.lead)
    ensures ItemsAt(data, pos + 1 + |v.lead|, v.items, true)
    ensures ByteAt(data, pos + 1 + |v.lead| + ItemsLength(v.items, true), CLOSE_BRACKET)
    ensures pos + 1 + |v.lead| + ItemsLength(v.items, true) + 1 == pos + Length(v)
  {
  }

  /** The parts of a level, each in its place. */
  predicate LevelParted(data: seq<byte>, pos: nat, v: Value, p: Places)
    requires IsLevel(v)
  {
    && ByteAt(data, pos, OPEN_BRACKET) && FirstAt(data, pos, v, p) && SecondAt(data, v.items.rest, p)
    && p.end + 1 == pos + Length(v)
  }

  predicate FirstAt(data: seq<byte>, pos: nat, v: Value, p: Places)
    requires IsLevel(v)
  {
    && At(data, pos + 1, v.lead) && At(data, pos + 1 + |v.lead|, v.items.pre) && ValueAt(data, p.price, v.items.value)
    && At(data, p.price + Length(v.items.value), v.items.post) && ByteAt(data, p.comma, COMMA)
  }

  predicate SecondAt(data: seq<byte>, second: Items, p: Places)
    requires second.Item?
  {
    && At(data, p.comma + 1, second.pre) && ValueAt(data, p.qty, second.value)
    && At(data, p.qty + Length(second.value), second.post) && ItemsAt(data, p.third, second.rest, false)
    && ByteAt(data, p.end, CLOSE_BRACKET)
  }

  lemma FirstParts(data: seq<byte>, pos: nat, v: Value, p: Places)
    requires ValueAt(data, pos, v) && IsLevel(v) && p == PlacesOf(pos, v)
    ensures ByteAt(data, pos, OPEN_BRACKET) && FirstAt(data, pos, v, p)
    ensures ItemsAt(data, p.comma, v.items.rest, false) && p.end == p.comma + ItemsLength(v.items.rest, false)
    ensures ByteAt(data, p.end, CLOSE_BRACKET) && p.end + 1 == pos + Length(v)
  {
    ArrayParts(data, pos, v);
    ItemParts(data, pos + 1 + |v.lead|, v.items, true);
    AfterFirst(data, p.comma, v.items.rest);
  }

  lemma AfterFirst(data: seq<byte>, comma: nat, rest: Items)
    requires rest.Item? && ItemsAt(data, comma, rest, false)
    ensures ByteAt(data, comma, COMMA)
  {
  }

  lemma SecondParts(data: seq<byte>, second: Items, p: Places)
    requires second.Item? && ItemsAt(data, p.comma, second, false) && ByteAt(data, p.end, CLOSE_BRACKET)
    requires p.qty == p.comma + 1 + |second.pre| && p.third == p.qty + Length(second.value) + |second.post|
    ensures SecondAt(data, second, p)
  {
    ItemParts(data, p.comma, second, false);
  }

  lemma LevelParts(data: seq<byte>, pos: nat, v: Value, p: Places)
    requires ValueAt(data, pos, v) && IsLevel(v) && p == PlacesOf(pos, v)
    ensures LevelParted(data, pos, v, p)
  {
    FirstParts(data, pos, v, p);
    SecondParts(data, v.items.rest, p);
  }

  lemma LevelIsWellFormed(v: Value)
    requires WellFormed(v) && IsLevel(v)
    ensures AllWs(v.lead) && AllWs(v.items.pre) && WellFormed(v.items.value) && AllWs(v.items.post)
    ensures AllWs(v.items.rest.pre) && WellFormed(v.items.rest.value) && AllWs(v.items.rest.post)
    ensures WellFormedItems(v.items.rest.rest)
  {
    assert WellFormedItems(v.items);
    assert WellFormedItems(v.items.rest);
  }

  /** The element behind whitespace is where the scanner looks for it. */
  lemma ScalarFound(data: seq<byte>, from: nat, lead: seq<byte>, pre: seq<byte>, at: nat, v: Value)
    requires At(data, from, lead) && AllWs(lead) && At(data, from + |lead|, pre) && AllWs(pre)
    requires at == from + |lead| + |pre| && ValueAt(data, at, v) && WellFormed(v)
    ensures from <= |data| && WsEnd(data, from) == at
  {
    WsPasses(data, from, lead);
    WsPasses(data, from + |lead|, pre);
    FirstByte(data, at, v);
  }

  /** It is read whole, and what comes after it is found. */
  lemma ScalarThen(data: seq<byte>, at: nat, v: Value, post: seq<byte>, next: nat)
    requires ValueAt(data, at, v) && WellFormed(v) && Scalar(v) && At(data, at + Length(v), post) && AllWs(post)
    requires next == at + Length(v) + |post| && (ByteAt(data, next, COMMA) || ByteAt(data, next, CLOSE_BRACKET))
    ensures ScalarBytes(data, at) == ScalarText(v) && WsEnd(data, ScalarEnd(data, at)) == next
  {
    AfterItem(data, at + Length(v), post);
    ScalarReads(data, at, v);
  }

  /** An element between whitespace, from where the scanner stands to where it goes on. */
  lemma ElementReads(
    data: seq<byte>, from: nat, lead: seq<byte>, pre: seq<byte>, at: nat, v: Value, post: seq<byte>, next: nat)
    requires At(data, from, lead) && AllWs(lead) && At(data, from + |lead|, pre) && AllWs(pre)
    requires at == from + |lead| + |pre| && ValueAt(data, at, v) && WellFormed(v) && Scalar(v)
    requires At(data, at + Length(v), post) && AllWs(post) && next == at + Length(v) + |post|
    requires ByteAt(data, next, COMMA) || ByteAt(data, next, CLOSE_BRACKET)
    ensures from <= |data| && at <= |data| && WsEnd(data, from) == at
    ensures ScalarBytes(data, at) == ScalarText(v) && WsEnd(data, ScalarEnd(data, at)) == next
  {
    ScalarFound(data, from, lead, pre, at, v);
    ScalarThen(data, at, v, post, next);
  }

  lemma PriceReads(data: seq<byte>, pos: nat, v: Value, p: Places)
    requires IsLevel(v) && WellFormed(v) && FirstAt(data, pos, v, p) && p == PlacesOf(pos, v)
    ensures pos + 1 <= |data| && p.price <= |data| && WsEnd(data, pos + 1) == p.price
    ensures ScalarBytes(data, p.price) == ScalarText(v.items.value) && WsEnd(data, ScalarEnd(data, p.price)) == p.comma
  {
    LevelIsWellFormed(v);
    ElementReads(data, pos + 1, v.lead, v.items.pre, p.price, v.items.value, v.items.post, p.comma);
  }

  lemma AfterQty(data: seq<byte>, third: nat, items: Items)
    requires ItemsAt(data, third, items, false) && ByteAt(data, third + ItemsLength(items, false), CLOSE_BRACKET)
    ensures ByteAt(data, third, COMMA) || ByteAt(data, third, CLOSE_BRACKET)
  {
  }

  lemma SecondReads(data: seq<byte>, comma: nat, second: Items, qty: nat, third: nat)
    requires second.Item? && AllWs(second.pre) && WellFormed(second.value) && Scalar(second.value) && AllWs(second.post)
    requires At(data, comma + 1, second.pre) && qty == comma + 1 + |second.pre| && ValueAt(data, qty, second.value)
    requires At(data, qty + Length(second.value), second.post) && third == qty + Length(second.value) + |second.post|
    requires ItemsAt(data, third, second.rest, false) &&
               ByteAt(data, third + ItemsLength(second.rest, false), CLOSE_BRACKET)
    ensures comma + 1 <= |data| && qty <= |data| && WsEnd(data, comma + 1) == qty
    ensures ScalarBytes(data, qty) == ScalarText(second.value) && WsEnd(data, ScalarEnd(data, qty)) == third
  {
    AfterQty(data, third, second.rest);
    ElementReads(data, comma + 1, [], second.pre, qty, second.value, second.post, third);
  }

  lemma QtyReads(data: seq<byte>, second: Items, p: Places)
    requires second.Item? && WellFormedItems(second) && Scalar(second.value) && SecondAt(data, second, p)
    requires p.qty == p.comma + 1 + |second.pre| && p.third == p.qty + Length(second.value) + |second.post|
    requires p.end == p.third + ItemsLength(second.rest, false)
    ensures p.comma + 1 <= |data| && p.qty <= |data| && WsEnd(data, p.comma + 1) == p.qty
    ensures ScalarBytes(data, p.qty) == ScalarText(second.value) && WsEnd(data, ScalarEnd(data, p.qty)) == p.third
  {
    SecondReads(data, p.comma, second, p.qty, p.third);
  }

  /** Past the third element and those after it, however deep, to the end of the level. */
  lemma RestSkipped(data: seq<byte>, third: nat, items: Items)
    requires ItemsAt(data, third, items, false) && WellFormedItems(items)
    requires ByteAt(data, third + ItemsLength(items, false), CLOSE_BRACKET)
    ensures third < |data|
    ensures PairEndFrom(data, third) == third + ItemsLength(items, false) + 1
  {
    ItemsPass(data, third, items, false, OPEN_BRACKET, CLOSE_BRACKET);
    if items.Item? {
      var end := third + ItemsLength(items, false);
      assert Passes(data, end, end, OPEN_BRACKET, CLOSE_BRACKET);
      BracketEnds(data, third, end, end, OPEN_BRACKET, CLOSE_BRACKET);
    }
  }

  /** The reader follows the places. */
  lemma PairFollows(inst: Instrument, data: seq<byte>, pos: nat, price: seq<byte>, qty: seq<byte>, p: Places)
    requires pos < |data| && p.price <= |data| && p.qty <= |data| && p.third < |data|
    requires WsEnd(data, pos + 1) == p.price && ScalarBytes(data, p.price) == price
    requires WsEnd(data, ScalarEnd(data, p.price)) == p.comma && ByteAt(data, p.comma, COMMA)
    requires WsEnd(data, p.comma + 1) == p.qty && ScalarBytes(data, p.qty) == qty
    requires WsEnd(data, ScalarEnd(data, p.qty)) == p.third
    ensures PairLevel(inst, data, pos) == MakeLevel(inst, price, qty)
    ensures PairEnd(data, pos) == PairEndFrom(data, p.third)
  {
  }

  /** At `at` every reader reads the level `v`, and goes on at `end`. */
  ghost predicate LevelStands(data: seq<byte>, at: nat, v: Value, end: nat) {
    && LevelAt(data, at) && IsLevel(v)
    && forall inst :: PairLevel(inst, data, at) == LevelOf(inst, v) && PairEnd(data, at) == end
  }

  /** A level is read as its first two elements, and passed over whole. */
  lemma PairReads(data: seq<byte>, pos: nat, v: Value)
    requires ValueAt(data, pos, v) && WellFormed(v) && IsLevel(v)
    ensures LevelStands(data, pos, v, pos + Length(v))
  {
    assert LevelAt(data, pos) by { ArrayParts(data, pos, v); }
    forall inst ensures PairLevel(inst, data, pos) == LevelOf(inst, v) && PairEnd(data, pos) == pos + Length(v) {
      PairReadsFor(inst, data, pos, v);
    }
  }

  lemma PairReadsFor(inst: Instrument, data: seq<byte>, pos: nat, v: Value)
    requires ValueAt(data, pos, v) && WellFormed(v) && IsLevel(v)
    ensures LevelAt(data, pos) && PairLevel(inst, data, pos) == LevelOf(inst, v) &&
              PairEnd(data, pos) == pos + Length(v)
  {
    var p := PlacesOf(pos, v);
    LevelParts(data, pos, v, p);
    LevelIsWellFormed(v);
    RestSkipped(data, p.third, v.items.rest.rest);
    PriceReads(data, pos, v, p);
    QtyReads(data, v.items.rest, p);
    PairFollows(inst, data, pos, ScalarText(v.items.value), ScalarText(v.items.rest.value), p);
  }

  function PairEndFrom(data: seq<byte>, third: nat): nat
    requires third < |data|
  {
    if data[third] != CLOSE_BRACKET then ToClose(data, third, 1, OPEN_BRACKET, CLOSE_BRACKET) else third + 1
  }

  // ------------------------------------------------------------------------------------------------
  // A delta side
  // ------------------------------------------------------------------------------------------------

  lemma {:induction false} BracketSkips(data: seq<byte>, pos: nat, ws: seq<byte>)
    requires At(data, pos, ws) && AllWs(ws)
    ensures BracketFrom(data, pos) == BracketFrom(data, pos + |ws|)
    decreases |ws|
  {
    if ws != [] {
      assert ws[0] == data[pos];
      AtTail(data, pos, ws, 1);
      BracketSkips(data, pos + 1, ws[1..]);
    }
  }

  lemma FindsBracket(data: seq<byte>, pos: nat, first: bool, ws: seq<byte>, value: nat)
    requires (first || ByteAt(data, pos, COMMA)) && At(data, pos + SeparatorLength(first), ws) && AllWs(ws)
    requires value == pos + SeparatorLength(first) + |ws| && ByteAt(data, value, OPEN_BRACKET)
    ensures pos <= |data| && BracketFrom(data, pos) == value
  {
    BracketSkips(data, pos + SeparatorLength(first), ws);
  }

  /** What the grammar says about the next level, in the reader's terms. */
  lemma NextLevel(data: seq<byte>, pos: nat, items: Items, first: bool, value: nat, post: nat)
    requires ItemsAt(data, pos, items, first) && WellFormedItems(items) && AllLevels(items) && items.Item?
    requires value == pos + SeparatorLength(first) + |items.pre| && post == value + Length(items.value)
    ensures pos <= |data| && BracketFrom(data, pos) == value && LevelStands(data, value, items.value, post)
    ensures ItemsAt(data, post + |items.post|, items.rest, false)
    ensures post + |items.post| + ItemsLength(items.rest, false) == pos + ItemsLength(items, first)
  {
    ItemParts(data, pos, items, first);
    PairReads(data, value, items.value);
    assert LevelAt(data, value);
    FindsBracket(data, pos, first, items.pre, value);
  }

  /** The levels in order, as many as the buffer has room for, up to the first that does not read. */
  function ReadItems(inst: Instrument, items: Items, levels: seq<Level>, room: nat): Result<seq<Level>, CryptoError>
    requires AllLevels(items)
  {
    if items.NoItems? then Ok(levels)
    else if |levels| == room then Err(DeltaOverflow)
    else
      match LevelOf(inst, items.value)
      case Err(e) => Err(e)
      case Ok(level) => ReadItems(inst, items.rest, levels + [level], room)
  }

  function Past(r: Result<seq<Level>, CryptoError>, past: nat): Result<Side, CryptoError> {
    if r.Err? then Err(r.error) else Ok(Side(r.value, past))
  }

  /** The reader goes on alike from either position. */
  predicate SameFrom(data: seq<byte>, p: nat, q: nat) {
    && p <= |data| && q <= |data| && BracketFrom(data, p) == BracketFrom(data, q)
    && ToClose(data, p, 1, OPEN_BRACKET, CLOSE_BRACKET) == ToClose(data, q, 1, OPEN_BRACKET, CLOSE_BRACKET)
  }

  lemma SkipsAlike(data: seq<byte>, pos: nat, ws: seq<byte>)
    requires At(data, pos, ws) && AllWs(ws)
    ensures SameFrom(data, pos, pos + |ws|)
  {
    BracketSkips(data, pos, ws);
    PlainPasses(data, pos, ws, OPEN_BRACKET, CLOSE_BRACKET);
  }

  lemma SameAfter(data: seq<byte>, pos: nat, items: Items, first: bool, post: nat)
    requires items.Item? && ItemsAt(data, pos, items, first) && AllWs(items.post)
    requires post == pos + SeparatorLength(first) + |items.pre| + Length(items.value)
    ensures SameFrom(data, post, post + |items.post|)
  {
    SkipsAlike(data, post, items.post);
  }

  /** From `pos` the reader reads these elements, whatever it has read before and whatever room it has. */
  ghost predicate DeltaReads(inst: Instrument, data: seq<byte>, pos: nat, items: Items, past: nat)
    requires AllLevels(items)
  {
    pos <= |data| &&
    forall levels, room: nat {:trigger DeltaFrom(inst, data, pos, levels, room)} ::
      DeltaFrom(inst, data, pos, levels, room) == Past(ReadItems(inst, items, levels, room), past)
  }

  lemma DeltaStep(inst: Instrument, data: seq<byte>, pos: nat, at: nat, post: nat, rest: nat, items: Items, past: nat)
    requires pos <= |data| && items.Item? && AllLevels(items)
    requires BracketFrom(data, pos) == at && LevelStands(data, at, items.value, post)
    requires SameFrom(data, post, rest)
    requires DeltaReads(inst, data, rest, items.rest, past)
    ensures DeltaReads(inst, data, pos, items, past)
  {
    forall levels, room: nat
      ensures DeltaFrom(inst, data, pos, levels, room) == Past(ReadItems(inst, items, levels, room), past)
    {
      assert PairLevel(inst, data, at) == LevelOf(inst, items.value);
      if |levels| != room && LevelOf(inst, items.value).Ok? {
        var more := levels + [LevelOf(inst, items.value).value];
        assert DeltaFrom(inst, data, pos, levels, room) == DeltaFrom(inst, data, post, more, room);
        assert DeltaFrom(inst, data, post, more, room) == DeltaFrom(inst, data, rest, more, room);
      }
    }
  }

  lemma DeltaEnd(inst: Instrument, data: seq<byte>, pos: nat)
    requires ByteAt(data, pos, CLOSE_BRACKET)
    ensures DeltaReads(inst, data, pos, NoItems, pos + 1)
  {
  }

  lemma ItemsAfter(data: seq<byte>, pos: nat, items: Items, first: bool, rest: nat)
    requires ItemsAt(data, pos, items, first) && items.Item?
    requires rest == pos + SeparatorLength(first) + |items.pre| + Length(items.value) + |items.post|
    ensures ItemsAt(data, rest, items.rest, false)
    ensures rest + ItemsLength(items.rest, false) == pos + ItemsLength(items, first)
  {
  }

  lemma DeltaGoesOn(inst: Instrument, data: seq<byte>, pos: nat, items: Items, first: bool, rest: nat, past: nat)
    requires ItemsAt(data, pos, items, first) && WellFormedItems(items) && AllLevels(items) && items.Item?
    requires rest == pos + SeparatorLength(first) + |items.pre| + Length(items.value) + |items.post|
    requires DeltaReads(inst, data, rest, items.rest, past)
    ensures DeltaReads(inst, data, pos, items, past)
  {
    var value := pos + SeparatorLength(first) + |items.pre|;
    var post := value + Length(items.value);
    NextLevel(data, pos, items, first, value, post);
    SameAfter(data, pos, items, first, post);
    DeltaStep(inst, data, pos, value, post, rest, items, past);
  }

  lemma {:induction false} ReadsDelta(inst: Instrument, data: seq<byte>, pos: nat, items: Items, first: bool, past: nat)
    requires ItemsAt(data, pos, items, first) && WellFormedItems(items) && AllLevels(items)
    requires past == pos + ItemsLength(items, first) + 1 && ByteAt(data, past - 1, CLOSE_BRACKET)
    ensures DeltaReads(inst, data, pos, items, past)
    decreases items
  {
    if items.NoItems? {
      DeltaEnd(inst, data, pos);
    } else {
      var rest := pos + SeparatorLength(first) + |items.pre| + Length(items.value) + |items.post|;
      ItemsAfter(data, pos, items, first, rest);
      ReadsDelta(inst, data, rest, items.rest, false, past);
      DeltaGoesOn(inst, data, pos, items, first, rest, past);
    }
  }

  lemma DeltaOpens(inst: Instrument, data: seq<byte>, pos: nat, room: nat)
    requires ByteAt(data, pos, OPEN_BRACKET)
    ensures DeltaSide(inst, data, pos, room) == DeltaFrom(inst, data, pos + 1, [], room)
  {
  }

  lemma DeltaFromAlike(inst: Instrument, data: seq<byte>, p: nat, q: nat, room: nat)
    requires SameFrom(data, p, q)
    ensures DeltaFrom(inst, data, p, [], room) == DeltaFrom(inst, data, q, [], room)
  {
  }

  lemma DeltaSideReads(inst: Instrument, data: seq<byte>, pos: nat, first: nat, items: Items, past: nat)
    requires ByteAt(data, pos, OPEN_BRACKET) && SameFrom(data, pos + 1, first)
    requires AllLevels(items) && DeltaReads(inst, data, first, items, past)
    ensures SideReads(inst, data, pos, items, past)
  {
    forall room: nat ensures DeltaSide(inst, data, pos, room) == Past(ReadItems(inst, items, [], room), past) {
      DeltaOpens(inst, data, pos, room);
      DeltaFromAlike(inst, data, pos + 1, first, room);
    }
  }

  function Count(items: Items): nat {
    if items.NoItems? then 0 else 1 + Count(items.rest)
  }

  predicate AllRead(inst: Instrument, items: Items)
    requires AllLevels(items)
  {
    items.Item? ==> LevelOf(inst, items.value).Ok? && AllRead(inst, items.rest)
  }

  function LevelsOf(inst: Instrument, items: Items): (levels: seq<Level>)
    requires AllLevels(items) && AllRead(inst, items)
    ensures |levels| == Count(items)
  {
    if items.NoItems? then [] else [LevelOf(inst, items.value).value] + LevelsOf(inst, items.rest)
  }

  lemma {:induction false} ReadItemsIff(inst: Instrument, items: Items, levels: seq<Level>, room: nat)
    requires AllLevels(items) && |levels| <= room
    ensures ReadItems(inst, items, levels, room).Ok? <==> AllRead(inst, items) && |levels| + Count(items) <= room
    ensures ReadItems(inst, items, levels, room).Ok? ==>
              ReadItems(inst, items, levels, room) == Ok(levels + LevelsOf(inst, items))
    ensures AllRead(inst, items) && |levels| + Count(items) > room ==>
              ReadItems(inst, items, levels, room) == Err(DeltaOverflow)
    decreases items
  {
    if items.NoItems? {
      assert levels + [] == levels;
    } else if |levels| < room && LevelOf(inst, items.value).Ok? {
      var level := LevelOf(inst, items.value).value;
      ReadItemsIff(inst, items.rest, levels + [level], room);
      if AllRead(inst, items) {
        assert levels + ([level] + LevelsOf(inst, items.rest)) == (levels + [level]) + LevelsOf(inst, items.rest);
      }
    }
  }

  /** A delta side is read exactly when every pair reads and the buffer holds them all: then its levels in
    * order, and a position just past the array. Readable levels are refused for one reason only. */
  lemma DeltaSideIff(inst: Instrument, data: seq<byte>, pos: nat, v: Value, room: nat)
    requires v.Array? && ValueAt(data, pos, v) && WellFormed(v) && AllLevels(v.items)
    ensures pos <= |data|
    ensures AllRead(inst, v.items) && Count(v.items) <= room ==>
              DeltaSide(inst, data, pos, room) == Ok(Side(LevelsOf(inst, v.items), pos + Length(v)))
    ensures AllRead(inst, v.items) && Count(v.items) > room ==> DeltaSide(inst, data, pos, room) == Err(DeltaOverflow)
    ensures !AllRead(inst, v.items) ==> DeltaSide(inst, data, pos, room).Err?
  {
    SideOfArray(inst, data, pos, v);
    ReadSideIff(inst, v.items, room, pos + Length(v));
  }

  ghost predicate SideReads(inst: Instrument, data: seq<byte>, pos: nat, items: Items, past: nat)
    requires AllLevels(items)
  {
    pos <= |data| &&
    forall room {:trigger DeltaSide(inst, data, pos, room)} ::
      DeltaSide(inst, data, pos, room) == Past(ReadItems(inst, items, [], room), past)
  }

  /** An array stands at `pos` and ends at `past`. */
  predicate ArrayAt(data: seq<byte>, pos: nat, lead: seq<byte>, items: Items, past: nat) {
    && ByteAt(data, pos, OPEN_BRACKET) && At(data, pos + 1, lead) && AllWs(lead) && WellFormedItems(items)
    && ItemsAt(data, pos + 1 + |lead|, items, true)
    && past == pos + 1 + |lead| + ItemsLength(items, true) + 1 && ByteAt(data, past - 1, CLOSE_BRACKET)
  }

  lemma ArrayStands(data: seq<byte>, pos: nat, v: Value)
    requires v.Array? && ValueAt(data, pos, v) && WellFormed(v)
    ensures ArrayAt(data, pos, v.lead, v.items, pos + Length(v))
  {
    ArrayParts(data, pos, v);
  }

  lemma DeltaFound(inst: Instrument, data: seq<byte>, pos: nat, lead: seq<byte>, items: Items, first: nat, past: nat)
    requires ArrayAt(data, pos, lead, items, past) && AllLevels(items) && first == pos + 1 + |lead|
    ensures SameFrom(data, pos + 1, first) && DeltaReads(inst, data, first, items, past)
  {
    SkipsAlike(data, pos + 1, lead);
    ReadsDelta(inst, data, first, items, true, past);
  }

  lemma SideOfArrayAt(inst: Instrument, data: seq<byte>, pos: nat, lead: seq<byte>, items: Items, past: nat)
    requires ArrayAt(data, pos, lead, items, past) && AllLevels(items)
    ensures SideReads(inst, data, pos, items, past)
  {
    DeltaFound(inst, data, pos, lead, items, pos + 1 + |lead|, past);
    DeltaSideReads(inst, data, pos, pos + 1 + |lead|, items, past);
  }

  lemma SideOfArray(inst: Instrument, data: seq<byte>, pos: nat, v: Value)
    requires v.Array? && ValueAt(data, pos, v) && WellFormed(v) && AllLevels(v.items)
    ensures SideReads(inst, data, pos, v.items, pos + Length(v))
  {
    ArrayStands(data, pos, v);
    SideOfArrayAt(inst, data, pos, v.lead, v.items, pos + Length(v));
  }

  lemma ReadSideIff(inst: Instrument, items: Items, room: nat, past: nat)
    requires AllLevels(items)
    ensures AllRead(inst, items) && Count(items) <= room ==>
              Past(ReadItems(inst, items, [], room), past) == Ok(Side(LevelsOf(inst, items), past))
    ensures AllRead(inst, items) && Count(items) > room ==>
              Past(ReadItems(inst, items, [], room), past) == Err(DeltaOverflow)
    ensures !AllRead(inst, items) ==> Past(ReadItems(inst, items, [], room), past).Err?
  {
    ReadItemsIff(inst, items, [], room);
    if AllRead(inst, items) {
      assert [] + LevelsOf(inst, items) == LevelsOf(inst, items);
    }
  }

  // ------------------------------------------------------------------------------------------------
  // A snapshot side
  // ------------------------------------------------------------------------------------------------

  /** The levels in order up to the tenth or the first that does not read. */
  function ReadBook(inst: Instrument, items: Items, levels: seq<Level>): Result<seq<Level>, CryptoError>
    requires AllLevels(items)
  {
    if items.NoItems? || |levels| >= WIRE_MAX_DEPTH then Ok(levels)
    else
      match LevelOf(inst, items.value)
      case Err(e) => Err(e)
      case Ok(level) => ReadBook(inst, items.rest, levels + [level])
  }

  lemma SkipsRest(data: seq<byte>, pos: nat, items: Items, first: bool)
    requires ItemsAt(data, pos, items, first) && WellFormedItems(items)
    requires ByteAt(data, pos + ItemsLength(items, first), CLOSE_BRACKET)
    ensures pos <= |data| && ToClose(data, pos, 1, OPEN_BRACKET, CLOSE_BRACKET) == pos + ItemsLength(items, first) + 1
  {
    var end := pos + ItemsLength(items, first);
    ItemsPass(data, pos, items, first, OPEN_BRACKET, CLOSE_BRACKET);
    assert Passes(data, end, end, OPEN_BRACKET, CLOSE_BRACKET);
    BracketEnds(data, pos, end, end, OPEN_BRACKET, CLOSE_BRACKET);
  }

  /** From `pos` the snapshot reader reads these elements, whatever it has read before. */
  ghost predicate BookReads(inst: Instrument, data: seq<byte>, pos: nat, items: Items, past: nat)
    requires AllLevels(items)
  {
    pos <= |data| &&
    forall levels {:trigger BookFrom(inst, data, pos, levels)} ::
      BookFrom(inst, data, pos, levels) == Past(ReadBook(inst, items, levels), past)
  }

  lemma BookStep(inst: Instrument, data: seq<byte>, pos: nat, at: nat, post: nat, rest: nat, items: Items, past: nat)
    requires pos <= |data| && items.Item? && AllLevels(items)
    requires BracketFrom(data, pos) == at && LevelStands(data, at, items.value, post)
    requires ToClose(data, pos, 1, OPEN_BRACKET, CLOSE_BRACKET) == past
    requires SameFrom(data, post, rest)
    requires BookReads(inst, data, rest, items.rest, past)
    ensures BookReads(inst, data, pos, items, past)
  {
    forall levels ensures BookFrom(inst, data, pos, levels) == Past(ReadBook(inst, items, levels), past) {
      assert PairLevel(inst, data, at) == LevelOf(inst, items.value);
      if |levels| < WIRE_MAX_DEPTH && LevelOf(inst, items.value).Ok? {
        var more := levels + [LevelOf(inst, items.value).value];
        assert BookFrom(inst, data, pos, levels) == BookFrom(inst, data, post, more);
        assert BookFrom(inst, data, post, more) == BookFrom(inst, data, rest, more);
      }
    }
  }

  lemma BookEnd(inst: Instrument, data: seq<byte>, pos: nat)
    requires ByteAt(data, pos, CLOSE_BRACKET)
    ensures BookReads(inst, data, pos, NoItems, pos + 1)
  {
  }

  lemma BookGoesOn(inst: Instrument, data: seq<byte>, pos: nat, items: Items, first: bool, rest: nat, past: nat)
    requires ItemsAt(data, pos, items, first) && WellFormedItems(items) && AllLevels(items) && items.Item?
    requires past == pos + ItemsLength(items, first) + 1 && ByteAt(data, past - 1, CLOSE_BRACKET)
    requires rest == pos + SeparatorLength(first) + |items.pre| + Length(items.value) + |items.post|
    requires BookReads(inst, data, rest, items.rest, past)
    ensures BookReads(inst, data, pos, items, past)
  {
    var value := pos + SeparatorLength(first) + |items.pre|;
    var post := value + Length(items.value);
    NextLevel(data, pos, items, first, value, post);
    SameAfter(data, pos, items, first, post);
    SkipsRest(data, pos, items, first);
    BookStep(inst, data, pos, value, post, rest, items, past);
  }

  lemma {:induction false} ReadsBook(inst: Instrument, data: seq<byte>, pos: nat, items: Items, first: bool, past: nat)
    requires ItemsAt(data, pos, items, first) && WellFormedItems(items) && AllLevels(items)
    requires past == pos + ItemsLength(items, first) + 1 && ByteAt(data, past - 1, CLOSE_BRACKET)
    ensures BookReads(inst, data, pos, items, past)
    decreases items
  {
    if items.NoItems? {
      BookEnd(inst, data, pos);
    } else {
      var rest := pos + SeparatorLength(first) + |items.pre| + Length(items.value) + |items.post|;
      ItemsAfter(data, pos, items, first, rest);
      ReadsBook(inst, data, rest, items.rest, false, past);
      BookGoesOn(inst, data, pos, items, first, rest, past);
    }
  }

  lemma BookSideReads(inst: Instrument, data: seq<byte>, pos: nat, first: nat, items: Items, past: nat)
    requires ByteAt(data, pos, OPEN_BRACKET) && SameFrom(data, pos + 1, first)
    requires AllLevels(items) && BookReads(inst, data, first, items, past)
    ensures BookSide(inst, data, pos) == Past(ReadBook(inst, items, []), past)
  {
    assert BookFrom(inst, data, pos + 1, []) == BookFrom(inst, data, first, []);
  }

  function Take(items: Items, n: nat): Items {
    if items.NoItems? || n == 0 then NoItems else items.(rest := Take(items.rest, n - 1))
  }

  lemma {:induction false} TakeLevels(items: Items, n: nat)
    requires AllLevels(items)
    ensures AllLevels(Take(items, n))
  {
    if items.Item? && n > 0 {
      TakeLevels(items.rest, n - 1);
    }
  }

  lemma {:induction false} ReadBookIff(inst: Instrument, items: Items, levels: seq<Level>)
    requires AllLevels(items) && |levels| <= WIRE_MAX_DEPTH
    ensures AllLevels(Take(items, WIRE_MAX_DEPTH - |levels|))
    ensures var kept := Take(items, WIRE_MAX_DEPTH - |levels|);
            && (ReadBook(inst, items, levels).Ok? <==> AllRead(inst, kept))
            && (AllRead(inst, kept) ==> ReadBook(inst, items, levels) == Ok(levels + LevelsOf(inst, kept)))
    decreases items
  {
    TakeLevels(items, WIRE_MAX_DEPTH - |levels|);
    if items.NoItems? || |levels| == WIRE_MAX_DEPTH {
      assert levels + [] == levels;
    } else if LevelOf(inst, items.value).Ok? {
      var level := LevelOf(inst, items.value).value;
      var kept := Take(items.rest, WIRE_MAX_DEPTH - |levels| - 1);
      ReadBookIff(inst, items.rest, levels + [level]);
      if AllRead(inst, kept) {
        assert levels + ([level] + LevelsOf(inst, kept)) == (levels + [level]) + LevelsOf(inst, kept);
      }
    }
  }

  /** A snapshot side is its first ten levels, the rest stepped over unread: it is refused exactly when one of
    * those ten does not read, and what follows an array of any length is found just past it. The depth is the
    * deepest of the ten with a quantity. */
  lemma BookSideIff(inst: Instrument, data: seq<byte>, pos: nat, v: Value)
    requires v.Array? && ValueAt(data, pos, v) && WellFormed(v) && AllLevels(v.items)
    ensures pos <= |data| && AllLevels(Take(v.items, 10))
    ensures var kept := Take(v.items, 10);
            && (BookSide(inst, data, pos).Ok? <==> AllRead(inst, kept))
            && (AllRead(inst, kept) ==> BookSide(inst, data, pos) == Ok(Side(LevelsOf(inst, kept), pos + Length(v))))
  {
    SideOfBook(inst, data, pos, v);
    ReadBookSideIff(inst, v.items, pos + Length(v));
  }

  lemma BookFound(inst: Instrument, data: seq<byte>, pos: nat, lead: seq<byte>, items: Items, first: nat, past: nat)
    requires ArrayAt(data, pos, lead, items, past) && AllLevels(items) && first == pos + 1 + |lead|
    ensures SameFrom(data, pos + 1, first) && BookReads(inst, data, first, items, past)
  {
    SkipsAlike(data, pos + 1, lead);
    ReadsBook(inst, data, first, items, true, past);
  }

  lemma SideOfBookAt(inst: Instrument, data: seq<byte>, pos: nat, lead: seq<byte>, items: Items, past: nat)
    requires ArrayAt(data, pos, lead, items, past) && AllLevels(items)
    ensures BookSide(inst, data, pos) == Past(ReadBook(inst, items, []), past)
  {
    BookFound(inst, data, pos, lead, items, pos + 1 + |lead|, past);
    BookSideReads(inst, data, pos, pos + 1 + |lead|, items, past);
  }

  lemma SideOfBook(inst: Instrument, data: seq<byte>, pos: nat, v: Value)
    requires v.Array? && ValueAt(data, pos, v) && WellFormed(v) && AllLevels(v.items)
    ensures pos <= |data| && BookSide(inst, data, pos) == Past(ReadBook(inst, v.items, []), pos + Length(v))
  {
    ArrayStands(data, pos, v);
    SideOfBookAt(inst, data, pos, v.lead, v.items, pos + Length(v));
  }

  lemma ReadBookSideIff(inst: Instrument, items: Items, past: nat)
    requires AllLevels(items)
    ensures AllLevels(Take(items, WIRE_MAX_DEPTH))
    ensures var kept := Take(items, WIRE_MAX_DEPTH);
            && (Past(ReadBook(inst, items, []), past).Ok? <==> AllRead(inst, kept))
            && (AllRead(inst, kept) ==> Past(ReadBook(inst, items, []), past) == Ok(Side(LevelsOf(inst, kept), past)))
  {
    var kept := Take(items, WIRE_MAX_DEPTH);
    ReadBookIff(inst, items, []);
    if AllRead(inst, kept) {
      assert [] + LevelsOf(inst, kept) == LevelsOf(inst, kept);
    }
  }

  // ------------------------------------------------------------------------------------------------
  // A level that does not read
  // ------------------------------------------------------------------------------------------------

  /** A level is its price and its quantity, each as its own reader reads it. */
  lemma LevelOfIff(inst: Instrument, v: Value, level: Level)
    requires IsLevel(v)
    ensures LevelOf(inst, v) == Ok(level) <==>
            inst.price(ScalarText(v.items.value)) == Ok(level.price) &&
            inst.qty(ScalarText(v.items.rest.value)) == Ok(level.qty)
  {
  }

  /** The price does not read, or else the quantity, and why. */
  predicate LevelFails(inst: Instrument, v: Value, e: CryptoError)
    requires IsLevel(v)
  {
    var price, qty := inst.price(ScalarText(v.items.value)), inst.qty(ScalarText(v.items.rest.value));
    if price.Err? then e == BadField(LevelPrice, price.error)
    else qty.Err? && e == BadField(LevelQuantity, qty.error)
  }

  /** The `k`-th level is the first that does not read. */
  predicate FailsAt(inst: Instrument, items: Items, k: nat, e: CryptoError)
    requires AllLevels(items)
  {
    && items.Item?
    && if k == 0 then LevelFails(inst, items.value, e)
       else LevelOf(inst, items.value).Ok? && FailsAt(inst, items.rest, k - 1, e)
  }

  lemma {:induction false} ReadItemsFails(
    inst: Instrument, items: Items, levels: seq<Level>, room: nat, k: nat, e: CryptoError)
    requires AllLevels(items) && |levels| <= room && FailsAt(inst, items, k, e)
    ensures ReadItems(inst, items, levels, room) == Err(if |levels| + k < room then e else DeltaOverflow)
    decreases items
  {
    if |levels| < room && k > 0 {
      ReadItemsFails(inst, items.rest, levels + [LevelOf(inst, items.value).value], room, k - 1, e);
    }
  }

  lemma {:induction false} ReadBookFails(inst: Instrument, items: Items, levels: seq<Level>, k: nat, e: CryptoError)
    requires AllLevels(items) && FailsAt(inst, items, k, e) && |levels| + k < 10
    ensures ReadBook(inst, items, levels) == Err(e)
    decreases items
  {
    if k > 0 {
      ReadBookFails(inst, items.rest, levels + [LevelOf(inst, items.value).value], k - 1, e);
    }
  }

  /** A delta side is refused for its first level that does not read, unless the buffer is full before it. */
  lemma DeltaSideFails(inst: Instrument, data: seq<byte>, pos: nat, v: Value, room: nat, k: nat, e: CryptoError)
    requires v.Array? && ValueAt(data, pos, v) && WellFormed(v) && AllLevels(v.items) && FailsAt(inst, v.items, k, e)
    ensures pos <= |data| && DeltaSide(inst, data, pos, room) == Err(if k < room then e else DeltaOverflow)
  {
    SideOfArray(inst, data, pos, v);
    ReadItemsFails(inst, v.items, [], room, k, e);
  }

  /** And a snapshot side, when that level is among the ten. */
  lemma BookSideFails(inst: Instrument, data: seq<byte>, pos: nat, v: Value, k: nat, e: CryptoError)
    requires v.Array? && ValueAt(data, pos, v) && WellFormed(v) && AllLevels(v.items) && FailsAt(inst, v.items, k, e)
    requires k < 10
    ensures pos <= |data| && BookSide(inst, data, pos) == Err(e)
  {
    SideOfBook(inst, data, pos, v);
    ReadBookFails(inst, v.items, [], k, e);
  }

  /** Where no array begins, either reader finds an empty side and gives the rest of the data up. */
  lemma NoArraySide(inst: Instrument, data: seq<byte>, pos: nat, room: nat)
    requires pos <= |data|
    requires var at := WsEnd(data, pos); at == |data| || data[at] != 0x5B
    ensures DeltaSide(inst, data, pos, room) == Ok(Side([], |data|))
    ensures BookSide(inst, data, pos) == Ok(Side([], |data|))
  {
  }
}

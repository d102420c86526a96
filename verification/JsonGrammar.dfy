/** JSON texts (RFC 8259, sections 2 to 7), and what the flat scanners make of every one of them.
  *
  * The grammar is a little wider than the RFC's: any run of the bytes a number may use is a number, and a
  * backslash may be followed by any byte.
  */
module JsonGrammar {
  import opened Wrappers
  import opened Bytes
  import opened JsonScan
  import opened Placement

  datatype Value =
    | Literal(text: seq<byte>)
    | Number(text: seq<byte>)
    | String(raw: seq<byte>)
    | Array(lead: seq<byte>, items: Items)
    | Object(lead: seq<byte>, members: Members)

  /** Elements and members with the insignificant whitespace around every token. */
  datatype Items = NoItems | Item(pre: seq<byte>, value: Value, post: seq<byte>, rest: Items)

  datatype Members =
    | NoMembers
    | Member(pre: seq<byte>, key: seq<byte>, mid: seq<byte>, gap: seq<byte>, value: Value, post: seq<byte>,
      rest: Members)

  /** Spaces, tabs, line feeds and carriage returns. */
  predicate AllWs(s: seq<byte>) {
    forall i :: 0 <= i < |s| ==> s[i] in {0x20, 0x09, 0x0A, 0x0D}
  }

  /** A digit, `-`, `+`, `.`, `E` or `e`. */
  predicate NumberByte(b: byte) {
    0x30 <= b <= 0x39 || b in {0x2D, 0x2B, 0x2E, 0x45, 0x65}
  }

  /** What may stand between quotes. */
  predicate Raw(s: seq<byte>) {
    s == [] ||
    (if s[0] == 0x5C then |s| > 1 && Raw(s[2..]) else s[0] != 0x22 && Raw(s[1..]))
  }

  const TRUE: seq<byte> := [0x74, 0x72, 0x75, 0x65]
  const FALSE: seq<byte> := [0x66, 0x61, 0x6C, 0x73, 0x65]
  const NULL: seq<byte> := [0x6E, 0x75, 0x6C, 0x6C]

  predicate WellFormed(v: Value) {
    match v
    case Literal(text) => text == TRUE || text == FALSE || text == NULL
    case Number(text) => text != [] && forall i :: 0 <= i < |text| ==> NumberByte(text[i])
    case String(raw) => Raw(raw)
    case Array(lead, items) => AllWs(lead) && WellFormedItems(items)
    case Object(lead, members) => AllWs(lead) && WellFormedMembers(members)
  }

  predicate WellFormedItems(items: Items) {
    items.Item? ==> AllWs(items.pre) && WellFormed(items.value) && AllWs(items.post) && WellFormedItems(items.rest)
  }

  predicate WellFormedMembers(ms: Members) {
    ms.Member? ==>
      && AllWs(ms.pre) && Raw(ms.key) && AllWs(ms.mid) && AllWs(ms.gap)
      && WellFormed(ms.value) && AllWs(ms.post) && WellFormedMembers(ms.rest)
  }

  function Quoted(raw: seq<byte>): seq<byte> {
    [0x22] + (raw + [0x22])
  }

  function Render(v: Value): seq<byte> {
    match v
    case Literal(text) => text
    case Number(text) => text
    case String(raw) => Quoted(raw)
    case Array(lead, items) => [0x5B] + (lead + (RenderItems(items, true) + [0x5D]))
    case Object(lead, members) => [0x7B] + (lead + (RenderMembers(members, true) + [0x7D]))
  }

  function Separator(first: bool): seq<byte> {
    if first then [] else [0x2C]
  }

  function RenderItems(items: Items, first: bool): seq<byte> {
    match items
    case NoItems => []
    case Item(pre, value, post, rest) => Separator(first) + (pre + (Render(value) + (post + RenderItems(rest, false))))
  }

  function RenderMembers(ms: Members, first: bool): seq<byte> {
    match ms
    case NoMembers => []
    case Member(pre, key, mid, gap, value, post, rest) =>
      Separator(first) + (pre + (KeyText(key, mid, gap) + (Render(value) + (post + RenderMembers(rest, false)))))
  }

  function KeyText(key: seq<byte>, mid: seq<byte>, gap: seq<byte>): seq<byte> {
    Quoted(key) + (mid + ([0x3A] + gap))
  }

  // ------------------------------------------------------------------------------------------------
  // Values in their place
  // ------------------------------------------------------------------------------------------------

  /** The length of a rendered value, and what it means for one to stand at a position, part by part. */
  function Length(v: Value): nat {
    match v
    case Literal(text) => |text|
    case Number(text) => |text|
    case String(raw) => |raw| + 2
    case Array(lead, items) => |lead| + ItemsLength(items, true) + 2
    case Object(lead, members) => |lead| + MembersLength(members, true) + 2
  }

  function SeparatorLength(first: bool): nat {
    if first then 0 else 1
  }

  function ItemsLength(items: Items, first: bool): nat {
    if items.NoItems? then 0
    else SeparatorLength(first) + |items.pre| + Length(items.value) + |items.post| + ItemsLength(items.rest, false)
  }

  function MembersLength(ms: Members, first: bool): nat {
    if ms.NoMembers? then 0
    else ValueOffset(ms, first) + Length(ms.value) + |ms.post| + MembersLength(ms.rest, false)
  }

  /** Where a member's value starts. */
  function ValueOffset(ms: Members, first: bool): nat
    requires ms.Member?
  {
    SeparatorLength(first) + |ms.pre| + |ms.key| + 2 + |ms.mid| + 1 + |ms.gap|
  }

  predicate ValueAt(data: seq<byte>, pos: nat, v: Value)
    decreases v
  {
    match v
    case Literal(text) => At(data, pos, text)
    case Number(text) => At(data, pos, text)
    case String(raw) => StringAt(data, pos, raw)
    case Array(lead, items) =>
      var end := pos + 1 + |lead| + ItemsLength(items, true);
      && ByteAt(data, pos, OPEN_BRACKET) && At(data, pos + 1, lead)
      && ItemsAt(data, pos + 1 + |lead|, items, true) && ByteAt(data, end, CLOSE_BRACKET)
    case Object(lead, members) =>
      var end := pos + 1 + |lead| + MembersLength(members, true);
      && ByteAt(data, pos, OPEN_BRACE) && At(data, pos + 1, lead)
      && MembersAt(data, pos + 1 + |lead|, members, true) && ByteAt(data, end, CLOSE_BRACE)
  }

  predicate StringAt(data: seq<byte>, pos: nat, raw: seq<byte>) {
    ByteAt(data, pos, QUOTE) && At(data, pos + 1, raw) && ByteAt(data, pos + 1 + |raw|, QUOTE)
  }

  predicate ItemsAt(data: seq<byte>, pos: nat, items: Items, first: bool)
    decreases items
  {
    if items.NoItems? then pos <= |data|
    else
      var pre := pos + SeparatorLength(first);
      var value := pre + |items.pre|;
      var post := value + Length(items.value);
      && (first || ByteAt(data, pos, COMMA)) && At(data, pre, items.pre)
      && ValueAt(data, value, items.value) && At(data, post, items.post)
      && ItemsAt(data, post + |items.post|, items.rest, false)
  }

  /** The key of a member, with the whitespace and the colon around it. */
  predicate KeyAt(data: seq<byte>, pos: nat, ms: Members, first: bool)
    requires ms.Member?
  {
    var pre := pos + SeparatorLength(first);
    var key := pre + |ms.pre|;
    var mid := key + |ms.key| + 2;
    && (first || ByteAt(data, pos, COMMA)) && At(data, pre, ms.pre) && StringAt(data, key, ms.key)
    && At(data, mid, ms.mid) && ByteAt(data, mid + |ms.mid|, COLON) && At(data, mid + |ms.mid| + 1, ms.gap)
  }

  predicate MembersAt(data: seq<byte>, pos: nat, ms: Members, first: bool)
    decreases ms
  {
    if ms.NoMembers? then pos <= |data|
    else
      var value := pos + ValueOffset(ms, first);
      var post := value + Length(ms.value);
      && KeyAt(data, pos, ms, first) && ValueAt(data, value, ms.value) && At(data, post, ms.post)
      && MembersAt(data, post + |ms.post|, ms.rest, false)
  }

  lemma QuotedStands(data: seq<byte>, pos: nat, raw: seq<byte>)
    requires At(data, pos, Quoted(raw))
    ensures StringAt(data, pos, raw) && |Quoted(raw)| == |raw| + 2
  {
    AtSplit(data, pos, [QUOTE], raw + [QUOTE]);
    AtSplit(data, pos + 1, raw, [QUOTE]);
    AtOne(data, pos, QUOTE);
    AtOne(data, pos + 1 + |raw|, QUOTE);
  }

  lemma SeparatorStands(data: seq<byte>, pos: nat, first: bool)
    requires At(data, pos, Separator(first))
    ensures first || ByteAt(data, pos, COMMA)
  {
    if !first {
      AtOne(data, pos, COMMA);
    }
  }

  /** A rendered text stands where its parts do. */
  lemma {:induction false} ValueStands(data: seq<byte>, pos: nat, v: Value)
    requires At(data, pos, Render(v))
    ensures |Render(v)| == Length(v) && ValueAt(data, pos, v)
    decreases v
  {
    match v
    case Literal(_) =>
    case Number(_) =>
    case String(raw) => QuotedStands(data, pos, raw);
    case Array(lead, items) =>
      BracketStands(data, pos, OPEN_BRACKET, lead, RenderItems(items, true), CLOSE_BRACKET);
      ItemsStand(data, pos + 1 + |lead|, items, true);
    case Object(lead, members) =>
      BracketStands(data, pos, OPEN_BRACE, lead, RenderMembers(members, true), CLOSE_BRACE);
      MembersStand(data, pos + 1 + |lead|, members, true);
  }

  lemma BracketStands(data: seq<byte>, pos: nat, open: byte, lead: seq<byte>, body: seq<byte>, close: byte)
    requires At(data, pos, [open] + (lead + (body + [close])))
    ensures ByteAt(data, pos, open) && At(data, pos + 1, lead) && At(data, pos + 1 + |lead|, body)
    ensures ByteAt(data, pos + 1 + |lead| + |body|, close)
  {
    AtSplit(data, pos, [open], lead + (body + [close]));
    AtSplit(data, pos + 1, lead, body + [close]);
    AtSplit(data, pos + 1 + |lead|, body, [close]);
    AtOne(data, pos, open);
    AtOne(data, pos + 1 + |lead| + |body|, close);
  }

  /** Five parts in a row. */
  lemma PartsStand(data: seq<byte>, pos: nat, a: seq<byte>, b: seq<byte>, c: seq<byte>, d: seq<byte>, e: seq<byte>)
    requires At(data, pos, a + (b + (c + (d + e))))
    ensures At(data, pos, a) && At(data, pos + |a|, b) && At(data, pos + |a| + |b|, c)
    ensures At(data, pos + |a| + |b| + |c|, d) && At(data, pos + |a| + |b| + |c| + |d|, e)
  {
    AtSplit(data, pos, a, b + (c + (d + e)));
    AtSplit(data, pos + |a|, b, c + (d + e));
    AtSplit(data, pos + |a| + |b|, c, d + e);
    AtSplit(data, pos + |a| + |b| + |c|, d, e);
  }

  lemma {:induction false} ItemsStand(data: seq<byte>, pos: nat, items: Items, first: bool)
    requires At(data, pos, RenderItems(items, first))
    ensures |RenderItems(items, first)| == ItemsLength(items, first) && ItemsAt(data, pos, items, first)
    decreases items
  {
    if items.Item? {
      var value := pos + SeparatorLength(first) + |items.pre|;
      PartsStand(data, pos, Separator(first), items.pre, Render(items.value), items.post,
        RenderItems(items.rest, false));
      SeparatorStands(data, pos, first);
      ValueStands(data, value, items.value);
      ItemsStand(data, value + Length(items.value) + |items.post|, items.rest, false);
    }
  }

  lemma KeyStands(data: seq<byte>, pos: nat, key: seq<byte>, mid: seq<byte>, gap: seq<byte>)
    requires At(data, pos, KeyText(key, mid, gap))
    ensures |KeyText(key, mid, gap)| == |key| + 2 + |mid| + 1 + |gap| && StringAt(data, pos, key)
    ensures At(data, pos + |key| + 2, mid) && ByteAt(data, pos + |key| + 2 + |mid|, COLON)
    ensures At(data, pos + |key| + 2 + |mid| + 1, gap)
  {
    AtSplit(data, pos, Quoted(key), mid + ([COLON] + gap));
    QuotedStands(data, pos, key);
    AtSplit(data, pos + |key| + 2, mid, [COLON] + gap);
    AtSplit(data, pos + |key| + 2 + |mid|, [COLON], gap);
    AtOne(data, pos + |key| + 2 + |mid|, COLON);
  }

  lemma KeyStandsAt(data: seq<byte>, pos: nat, ms: Members, first: bool)
    requires ms.Member? && At(data, pos, Separator(first)) && At(data, pos + SeparatorLength(first), ms.pre)
    requires At(data, pos + SeparatorLength(first) + |ms.pre|, KeyText(ms.key, ms.mid, ms.gap))
    ensures KeyAt(data, pos, ms, first)
  {
    SeparatorStands(data, pos, first);
    KeyStands(data, pos + SeparatorLength(first) + |ms.pre|, ms.key, ms.mid, ms.gap);
  }

  lemma MembersAssemble(data: seq<byte>, pos: nat, ms: Members, first: bool, value: nat, post: nat)
    requires ms.Member? && value == pos + ValueOffset(ms, first) && post == value + Length(ms.value)
    requires KeyAt(data, pos, ms, first) && ValueAt(data, value, ms.value) && At(data, post, ms.post)
    requires MembersAt(data, post + |ms.post|, ms.rest, false)
    ensures MembersAt(data, pos, ms, first)
  {
  }

  lemma {:induction false} MembersStand(data: seq<byte>, pos: nat, ms: Members, first: bool)
    requires At(data, pos, RenderMembers(ms, first))
    ensures |RenderMembers(ms, first)| == MembersLength(ms, first) && MembersAt(data, pos, ms, first)
    decreases ms
  {
    if ms.Member? {
      var value := pos + ValueOffset(ms, first);
      PartsStand5(data, pos, ms, first);
      KeyStandsAt(data, pos, ms, first);
      ValueStands(data, value, ms.value);
      MembersStand(data, value + Length(ms.value) + |ms.post|, ms.rest, false);
      MembersAssemble(data, pos, ms, first, value, value + Length(ms.value));
    }
  }

  lemma PartsStand5(data: seq<byte>, pos: nat, ms: Members, first: bool)
    requires ms.Member? && At(data, pos, RenderMembers(ms, first))
    ensures At(data, pos, Separator(first)) && At(data, pos + SeparatorLength(first), ms.pre)
    ensures At(data, pos + SeparatorLength(first) + |ms.pre|, KeyText(ms.key, ms.mid, ms.gap))
    ensures var value := pos + ValueOffset(ms, first);
            At(data, value, Render(ms.value)) && At(data, value + |Render(ms.value)|, ms.post) &&
            At(data, value + |Render(ms.value)| + |ms.post|, RenderMembers(ms.rest, false))
    ensures |RenderMembers(ms, first)| ==
            ValueOffset(ms, first) + |Render(ms.value)| + |ms.post| + |RenderMembers(ms.rest, false)|
  {
    var key, tail := KeyText(ms.key, ms.mid, ms.gap), ms.post + RenderMembers(ms.rest, false);
    PartsStand(data, pos, Separator(first), ms.pre, key, Render(ms.value), tail);
    AtSplit(data, pos + ValueOffset(ms, first) + |Render(ms.value)|, ms.post, RenderMembers(ms.rest, false));
  }

  // ------------------------------------------------------------------------------------------------
  // Runs of bytes
  // ------------------------------------------------------------------------------------------------

  /** Whitespace is passed over, up to what is not. */
  lemma {:induction false} WsPasses(data: seq<byte>, pos: nat, ws: seq<byte>)
    requires At(data, pos, ws) && AllWs(ws)
    ensures WsEnd(data, pos) == WsEnd(data, pos + |ws|)
    decreases |ws|
  {
    if ws != [] {
      assert ws[0] == data[pos];
      AtTail(data, pos, ws, 1);
      WsPasses(data, pos + 1, ws[1..]);
    }
  }

  lemma {:induction false} WsHasNoQuote(data: seq<byte>, pos: nat, ws: seq<byte>)
    requires At(data, pos, ws) && AllWs(ws)
    ensures QuoteFrom(data, pos) == QuoteFrom(data, pos + |ws|)
    decreases |ws|
  {
    if ws != [] {
      assert ws[0] == data[pos];
      AtTail(data, pos, ws, 1);
      WsHasNoQuote(data, pos + 1, ws[1..]);
    }
  }

  lemma {:induction false} BodyEnds(data: seq<byte>, pos: nat, raw: seq<byte>)
    requires At(data, pos, raw) && Raw(raw) && pos + |raw| < |data| && data[pos + |raw|] == QUOTE
    ensures BodyEnd(data, pos) == pos + |raw|
    decreases |raw|
  {
    if raw != [] {
      assert raw[0] == data[pos];
      var k := if raw[0] == BACKSLASH then 2 else 1;
      AtTail(data, pos, raw, k);
      BodyEnds(data, pos + k, raw[k..]);
    }
  }

  /** A string is read as its raw bytes and passed over whole. */
  lemma StringPasses(data: seq<byte>, pos: nat, raw: seq<byte>)
    requires StringAt(data, pos, raw) && Raw(raw)
    ensures QuoteFrom(data, pos) == pos
    ensures BytesOf(data, pos) == raw && EndOf(data, pos) == pos + |raw| + 2
  {
    BodyEnds(data, pos + 1, raw);
    AtIsSlice(data, pos + 1, raw);
  }

  lemma {:induction false} NumberEnds(data: seq<byte>, pos: nat, text: seq<byte>)
    requires At(data, pos, text) && forall i :: 0 <= i < |text| ==> IsNumberByte(text[i])
    requires pos + |text| == |data| || !IsNumberByte(data[pos + |text|])
    ensures NumberEnd(data, pos) == pos + |text|
    decreases |text|
  {
    if text != [] {
      assert text[0] == data[pos];
      AtTail(data, pos, text, 1);
      NumberEnds(data, pos + 1, text[1..]);
    }
  }

  lemma {:induction false} LiteralEnds(data: seq<byte>, pos: nat, text: seq<byte>)
    requires At(data, pos, text) && forall i :: 0 <= i < |text| ==> IsAlpha(text[i])
    requires pos + |text| == |data| || !IsAlpha(data[pos + |text|])
    ensures LiteralEnd(data, pos) == pos + |text|
    decreases |text|
  {
    if text != [] {
      assert text[0] == data[pos];
      AtTail(data, pos, text, 1);
      LiteralEnds(data, pos + 1, text[1..]);
    }
  }

  // ------------------------------------------------------------------------------------------------
  // Brackets balance
  // ------------------------------------------------------------------------------------------------

  /** The two pairs the scanner counts. */
  predicate Pair(open: byte, close: byte) {
    (open == OPEN_BRACE && close == CLOSE_BRACE) || (open == OPEN_BRACKET && close == CLOSE_BRACKET)
  }

  predicate Plain(b: byte) {
    b !in {OPEN_BRACE, CLOSE_BRACE, OPEN_BRACKET, CLOSE_BRACKET, QUOTE}
  }

  /** From `pos` to `end` the scan comes back to the depth it had, whatever that was. */
  ghost predicate Passes(data: seq<byte>, pos: nat, end: nat, open: byte, close: byte) {
    pos <= end <= |data| &&
    forall depth: nat :: depth >= 1 ==> ToClose(data, pos, depth, open, close) == ToClose(data, end, depth, open, close)
  }

  lemma Chained(data: seq<byte>, pos: nat, mid: nat, end: nat, open: byte, close: byte)
    requires Passes(data, pos, mid, open, close) && Passes(data, mid, end, open, close)
    ensures Passes(data, pos, end, open, close)
  {
  }

  /** Four stretches one after the other. */
  lemma FourPass(data: seq<byte>, a: nat, b: nat, c: nat, d: nat, e: nat, open: byte, close: byte)
    requires Passes(data, a, b, open, close) && Passes(data, b, c, open, close)
    requires Passes(data, c, d, open, close) && Passes(data, d, e, open, close)
    ensures Passes(data, a, e, open, close)
  {
    Chained(data, a, b, c, open, close);
    Chained(data, a, c, d, open, close);
    Chained(data, a, d, e, open, close);
  }

  lemma {:induction false} PlainRun(data: seq<byte>, pos: nat, text: seq<byte>, depth: nat, open: byte, close: byte)
    requires At(data, pos, text) && Pair(open, close) && depth >= 1
    requires forall i :: 0 <= i < |text| ==> Plain(text[i])
    ensures ToClose(data, pos, depth, open, close) == ToClose(data, pos + |text|, depth, open, close)
    decreases |text|
  {
    if text != [] {
      assert text[0] == data[pos];
      AtTail(data, pos, text, 1);
      PlainRun(data, pos + 1, text[1..], depth, open, close);
    }
  }

  lemma PlainPasses(data: seq<byte>, pos: nat, text: seq<byte>, open: byte, close: byte)
    requires At(data, pos, text) && Pair(open, close) && forall i :: 0 <= i < |text| ==> Plain(text[i])
    ensures Passes(data, pos, pos + |text|, open, close)
  {
    forall depth: nat | depth >= 1
      ensures ToClose(data, pos, depth, open, close) == ToClose(data, pos + |text|, depth, open, close)
    {
      PlainRun(data, pos, text, depth, open, close);
    }
  }

  lemma BytePasses(data: seq<byte>, pos: nat, b: byte, open: byte, close: byte)
    requires ByteAt(data, pos, b) && Plain(b) && Pair(open, close)
    ensures Passes(data, pos, pos + 1, open, close)
  {
  }

  lemma QuotedPasses(data: seq<byte>, pos: nat, raw: seq<byte>, open: byte, close: byte)
    requires StringAt(data, pos, raw) && Raw(raw) && Pair(open, close)
    ensures Passes(data, pos, pos + |raw| + 2, open, close)
  {
    StringPasses(data, pos, raw);
  }

  /** A bracketed stretch whose inside passes, passes: its own pair or the other. */
  lemma BracketPasses(data: seq<byte>, pos: nat, end: nat, opener: byte, closer: byte, open: byte, close: byte)
    requires ByteAt(data, pos, opener) && Pair(opener, closer) && Pair(open, close)
    requires Passes(data, pos + 1, end, open, close) && ByteAt(data, end, closer)
    ensures Passes(data, pos, end + 1, open, close)
  {
    forall depth: nat | depth >= 1
      ensures ToClose(data, pos, depth, open, close) == ToClose(data, end + 1, depth, open, close)
    {
      var inside := if opener == open then depth + 1 else depth;
      assert ToClose(data, pos, depth, open, close) == ToClose(data, pos + 1, inside, open, close);
      assert ToClose(data, end, inside, open, close) == ToClose(data, end + 1, depth, open, close);
    }
  }

  /** As one with whitespace after its opener. */
  lemma SpacedPasses(
    data: seq<byte>, pos: nat, lead: seq<byte>, end: nat, opener: byte, closer: byte, open: byte, close: byte)
    requires ByteAt(data, pos, opener) && Pair(opener, closer) && Pair(open, close) && At(data, pos + 1, lead) &&
               AllWs(lead)
    requires Passes(data, pos + 1 + |lead|, end, open, close) && ByteAt(data, end, closer)
    ensures Passes(data, pos, end + 1, open, close)
  {
    PlainPasses(data, pos + 1, lead, open, close);
    Chained(data, pos + 1, pos + 1 + |lead|, end, open, close);
    BracketPasses(data, pos, end, opener, closer, open, close);
  }

  /** A value leaves the depth of the scan as it found it. */
  lemma {:induction false} ValuePasses(data: seq<byte>, pos: nat, v: Value, open: byte, close: byte)
    requires ValueAt(data, pos, v) && WellFormed(v) && Pair(open, close)
    ensures Passes(data, pos, pos + Length(v), open, close)
    decreases v
  {
    match v
    case Literal(text) => PlainPasses(data, pos, text, open, close);
    case Number(text) => PlainPasses(data, pos, text, open, close);
    case String(raw) => QuotedPasses(data, pos, raw, open, close);
    case Array(lead, items) =>
      var first := pos + 1 + |lead|;
      ItemsPass(data, first, items, true, open, close);
      SpacedPasses(data, pos, lead, first + ItemsLength(items, true), OPEN_BRACKET, CLOSE_BRACKET, open, close);
    case Object(lead, members) =>
      var first := pos + 1 + |lead|;
      MembersPass(data, first, members, true, open, close);
      SpacedPasses(data, pos, lead, first + MembersLength(members, true), OPEN_BRACE, CLOSE_BRACE, open, close);
  }

  lemma SeparatorPasses(data: seq<byte>, pos: nat, first: bool, open: byte, close: byte)
    requires (first || ByteAt(data, pos, COMMA)) && pos <= |data| && Pair(open, close)
    ensures Passes(data, pos, pos + SeparatorLength(first), open, close)
  {
    if !first {
      BytePasses(data, pos, COMMA, open, close);
    }
  }

  lemma ItemFound(data: seq<byte>, pos: nat, pre: nat, items: Items, first: bool, open: byte, close: byte)
    requires items.Item? && AllWs(items.pre) && Pair(open, close) && pre == pos + SeparatorLength(first)
    requires (first || ByteAt(data, pos, COMMA)) && At(data, pre, items.pre)
    ensures Passes(data, pos, pre + |items.pre|, open, close)
  {
    SeparatorPasses(data, pos, first, open, close);
    PlainPasses(data, pre, items.pre, open, close);
    Chained(data, pos, pre, pre + |items.pre|, open, close);
  }

  lemma {:induction false} ItemsPass(data: seq<byte>, pos: nat, items: Items, first: bool, open: byte, close: byte)
    requires ItemsAt(data, pos, items, first) && WellFormedItems(items) && Pair(open, close)
    ensures Passes(data, pos, pos + ItemsLength(items, first), open, close)
    decreases items
  {
    if items.Item? {
      var pre := pos + SeparatorLength(first);
      var value := pre + |items.pre|;
      var post := value + Length(items.value);
      var rest := post + |items.post|;
      ItemFound(data, pos, pre, items, first, open, close);
      ValuePasses(data, value, items.value, open, close);
      PlainPasses(data, post, items.post, open, close);
      ItemsPass(data, rest, items.rest, false, open, close);
      FourPass(data, pos, value, post, rest, rest + ItemsLength(items.rest, false), open, close);
    }
  }

  lemma ColonPasses(data: seq<byte>, colon: nat, gap: seq<byte>, open: byte, close: byte)
    requires ByteAt(data, colon, COLON) && At(data, colon + 1, gap) && AllWs(gap) && Pair(open, close)
    ensures Passes(data, colon, colon + 1 + |gap|, open, close)
  {
    BytePasses(data, colon, COLON, open, close);
    PlainPasses(data, colon + 1, gap, open, close);
    Chained(data, colon, colon + 1, colon + 1 + |gap|, open, close);
  }

  lemma KeyPasses(data: seq<byte>, pos: nat, ms: Members, first: bool, open: byte, close: byte)
    requires ms.Member? && KeyAt(data, pos, ms, first) && WellFormedMembers(ms) && Pair(open, close)
    ensures Passes(data, pos, pos + ValueOffset(ms, first), open, close)
  {
    var pre := pos + SeparatorLength(first);
    var key := pre + |ms.pre|;
    var mid := key + |ms.key| + 2;
    var colon := mid + |ms.mid|;
    SeparatorPasses(data, pos, first, open, close);
    PlainPasses(data, pre, ms.pre, open, close);
    Chained(data, pos, pre, key, open, close);
    QuotedPasses(data, key, ms.key, open, close);
    PlainPasses(data, mid, ms.mid, open, close);
    ColonPasses(data, colon, ms.gap, open, close);
    FourPass(data, pos, key, mid, colon, colon + 1 + |ms.gap|, open, close);
  }

  /** One member, from the comma before it to the whitespace after it. */
  lemma {:induction false} MemberPasses(
    data: seq<byte>, pos: nat, ms: Members, first: bool, value: nat, post: nat, open: byte, close: byte)
    requires ms.Member? && KeyAt(data, pos, ms, first) && WellFormedMembers(ms) && Pair(open, close)
    requires value == pos + ValueOffset(ms, first) && post == value + Length(ms.value)
    requires ValueAt(data, value, ms.value) && At(data, post, ms.post)
    ensures Passes(data, pos, post + |ms.post|, open, close)
    decreases ms, 0
  {
    KeyPasses(data, pos, ms, first, open, close);
    ValuePasses(data, value, ms.value, open, close);
    Chained(data, pos, value, post, open, close);
    PlainPasses(data, post, ms.post, open, close);
    Chained(data, pos, post, post + |ms.post|, open, close);
  }

  lemma {:induction false} MembersPass(data: seq<byte>, pos: nat, ms: Members, first: bool, open: byte, close: byte)
    requires MembersAt(data, pos, ms, first) && WellFormedMembers(ms) && Pair(open, close)
    ensures Passes(data, pos, pos + MembersLength(ms, first), open, close)
    decreases ms, 1
  {
    if ms.Member? {
      var value := pos + ValueOffset(ms, first);
      var post := value + Length(ms.value);
      var rest := post + |ms.post|;
      MemberPasses(data, pos, ms, first, value, post, open, close);
      MembersPass(data, rest, ms.rest, false, open, close);
      Chained(data, pos, rest, rest + MembersLength(ms.rest, false), open, close);
    }
  }

  // ------------------------------------------------------------------------------------------------
  // Values and members are passed over exactly
  // ------------------------------------------------------------------------------------------------

  /** Nothing that follows could be taken for more of a number or a literal. */
  predicate Delimited(data: seq<byte>, pos: nat) {
    pos < |data| ==> !IsNumberByte(data[pos]) && !IsAlpha(data[pos])
  }

  /** From inside a bracket whose content passes, the scan stops just past its closer. */
  lemma BracketEnds(data: seq<byte>, pos: nat, mid: nat, end: nat, open: byte, close: byte)
    requires Pair(open, close) && Passes(data, pos, mid, open, close) && Passes(data, mid, end, open, close)
    requires ByteAt(data, end, close)
    ensures ToClose(data, pos, 1, open, close) == end + 1
  {
    Chained(data, pos, mid, end, open, close);
    assert ToClose(data, end, 1, open, close) == end + 1;
  }

  lemma ArrayEnds(data: seq<byte>, pos: nat, lead: seq<byte>, items: Items)
    requires ValueAt(data, pos, Array(lead, items)) && WellFormed(Array(lead, items))
    ensures ToClose(data, pos + 1, 1, OPEN_BRACKET, CLOSE_BRACKET) == pos + Length(Array(lead, items))
  {
    var first := pos + 1 + |lead|;
    PlainPasses(data, pos + 1, lead, OPEN_BRACKET, CLOSE_BRACKET);
    ItemsPass(data, first, items, true, OPEN_BRACKET, CLOSE_BRACKET);
    BracketEnds(data, pos + 1, first, first + ItemsLength(items, true), OPEN_BRACKET, CLOSE_BRACKET);
  }

  lemma ObjectEnds(data: seq<byte>, pos: nat, lead: seq<byte>, members: Members)
    requires ValueAt(data, pos, Object(lead, members)) && WellFormed(Object(lead, members))
    ensures ToClose(data, pos + 1, 1, OPEN_BRACE, CLOSE_BRACE) == pos + Length(Object(lead, members))
  {
    var first := pos + 1 + |lead|;
    PlainPasses(data, pos + 1, lead, OPEN_BRACE, CLOSE_BRACE);
    MembersPass(data, first, members, true, OPEN_BRACE, CLOSE_BRACE);
    BracketEnds(data, pos + 1, first, first + MembersLength(members, true), OPEN_BRACE, CLOSE_BRACE);
  }

  /** The first byte of a value says which kind it is. */
  lemma FirstByte(data: seq<byte>, pos: nat, v: Value)
    requires ValueAt(data, pos, v) && WellFormed(v)
    ensures pos < |data| && !IsWs(data[pos]) && WsEnd(data, pos) == pos
    ensures v.Number? ==> !StartsLiteral(data[pos]) && Plain(data[pos])
    ensures v.Literal? ==> StartsLiteral(data[pos]) && Plain(data[pos])
  {
    if v.Number? || v.Literal? {
      assert v.text[0] == data[pos];
    }
  }

  /** Every value, however deeply nested, is stepped over to its last byte and no further. */
  lemma SkipsValue(data: seq<byte>, pos: nat, v: Value)
    requires ValueAt(data, pos, v) && WellFormed(v) && Delimited(data, pos + Length(v))
    ensures ValueEnd(data, pos) == pos + Length(v)
  {
    FirstByte(data, pos, v);
    match v
    case Literal(text) => LiteralEnds(data, pos, text);
    case Number(text) => NumberEnds(data, pos, text);
    case String(raw) => StringPasses(data, pos, raw);
    case Array(lead, items) => ArrayEnds(data, pos, lead, items);
    case Object(lead, members) => ObjectEnds(data, pos, lead, members);
  }

  /** A field in front of others, unless its key ends the walk. */
  function Prepend(key: seq<byte>, value: seq<byte>, fields: seq<Field>): seq<Field> {
    if key == [] then [] else [Field(key, value)] + fields
  }

  /** The members up to the first empty key, each with the bytes of its value. */
  function Visited(ms: Members): seq<Field> {
    if ms.NoMembers? then [] else Prepend(ms.key, Render(ms.value), Visited(ms.rest))
  }

  function Fields(ms: Members): seq<Field> {
    if ms.NoMembers? then [] else [Field(ms.key, Render(ms.value))] + Fields(ms.rest)
  }

  predicate NoKeyEmpty(ms: Members) {
    ms.Member? ==> ms.key != [] && NoKeyEmpty(ms.rest)
  }

  lemma {:induction false} AllVisitedIff(ms: Members)
    ensures Visited(ms) == Fields(ms) <==> NoKeyEmpty(ms)
    ensures |Visited(ms)| <= |Fields(ms)|
  {
    if ms.Member? {
      AllVisitedIff(ms.rest);
      if ms.key != [] {
        assert Visited(ms)[1..] == Visited(ms.rest) && Fields(ms)[1..] == Fields(ms.rest);
      }
    }
  }

  /** What follows a member's value in its object. */
  lemma AfterValue(data: seq<byte>, post: nat, ws: seq<byte>, rest: Members)
    requires At(data, post, ws) && AllWs(ws) && MembersAt(data, post + |ws|, rest, false)
    requires post + |ws| + MembersLength(rest, false) == |data|
    ensures Delimited(data, post)
  {
    if ws != [] {
      assert ws[0] == data[post];
    }
  }

  /** From the end of one member the next key is found. */
  lemma FindsKey(data: seq<byte>, pos: nat, ms: Members, first: bool)
    requires ms.Member? && KeyAt(data, pos, ms, first) && WellFormedMembers(ms)
    ensures var key := pos + SeparatorLength(first) + |ms.pre|;
            key < |data| && QuoteFrom(data, pos) == key && BytesOf(data, key) == ms.key &&
            EndOf(data, key) == key + |ms.key| + 2
  {
    FindsQuote(data, pos, ms, first);
    StringPasses(data, pos + SeparatorLength(first) + |ms.pre|, ms.key);
  }

  lemma FindsQuote(data: seq<byte>, pos: nat, ms: Members, first: bool)
    requires ms.Member? && KeyAt(data, pos, ms, first) && WellFormedMembers(ms)
    ensures var key := pos + SeparatorLength(first) + |ms.pre|; key < |data| && QuoteFrom(data, pos) == key
  {
    var pre := pos + SeparatorLength(first);
    WsHasNoQuote(data, pre, ms.pre);
    assert QuoteFrom(data, pos) == QuoteFrom(data, pre);
  }

  /** And past the colon its value. */
  lemma FindsValue(data: seq<byte>, mid: nat, ms: Members)
    requires ms.Member? && AllWs(ms.mid) && AllWs(ms.gap) && At(data, mid, ms.mid)
    requires ByteAt(data, mid + |ms.mid|, COLON) && At(data, mid + |ms.mid| + 1, ms.gap)
    requires var value := mid + |ms.mid| + 1 + |ms.gap|; value < |data| && !IsWs(data[value])
    ensures WsEnd(data, PastOne(data, WsEnd(data, mid), COLON)) == mid + |ms.mid| + 1 + |ms.gap|
  {
    WsPasses(data, mid, ms.mid);
    WsPasses(data, mid + |ms.mid| + 1, ms.gap);
  }

  lemma FindsMember(data: seq<byte>, pos: nat, ms: Members, first: bool, open: nat, value: nat)
    requires ms.Member? && MembersAt(data, pos, ms, first) && WellFormedMembers(ms)
    requires open == pos + SeparatorLength(first) + |ms.pre| && value == pos + ValueOffset(ms, first)
    ensures open < |data| && QuoteFrom(data, pos) == open && BytesOf(data, open) == ms.key &&
              ValueOf(data, open) == value
  {
    FindsKey(data, pos, ms, first);
    FirstByte(data, value, ms.value);
    FindsValue(data, open + |ms.key| + 2, ms);
  }

  /** The bytes a value takes are its rendering. */
  lemma TextOf(data: seq<byte>, pos: nat, v: Value)
    requires At(data, pos, Render(v))
    ensures |Render(v)| == Length(v) && data[pos..pos + Length(v)] == Render(v)
  {
    ValueStands(data, pos, v);
    AtIsSlice(data, pos, Render(v));
  }

  lemma VisitsAt(data: seq<byte>, pos: nat, ms: Members, first: bool, value: nat, post: nat, rest: nat)
    requires ms.Member? && MembersAt(data, pos, ms, first) && WellFormedMembers(ms)
    requires pos + MembersLength(ms, first) == |data|
    requires value == pos + ValueOffset(ms, first) && post == value + Length(ms.value) && rest == post + |ms.post|
    ensures value <= post <= rest <= |data| && pos <= |data|
    ensures Walk(data, pos) == Prepend(ms.key, data[value..post], Walk(data, rest))
  {
    var open := pos + SeparatorLength(first) + |ms.pre|;
    FindsMember(data, pos, ms, first, open, value);
    SkipsMember(data, pos, ms, first, value, post);
    WalkStep(data, pos, open, ms.key, value, post, rest);
  }

  /** The walk takes a member's key and value and goes on behind it. */
  lemma VisitsMember(data: seq<byte>, pos: nat, ms: Members, first: bool, rest: nat)
    requires ms.Member? && At(data, pos, RenderMembers(ms, first)) && WellFormedMembers(ms)
    requires pos + |RenderMembers(ms, first)| == |data|
    requires rest == pos + ValueOffset(ms, first) + Length(ms.value) + |ms.post|
    ensures At(data, rest, RenderMembers(ms.rest, false)) && rest + |RenderMembers(ms.rest, false)| == |data|
    ensures Walk(data, pos) == Prepend(ms.key, Render(ms.value), Walk(data, rest))
  {
    var value, post := pos + ValueOffset(ms, first), pos + ValueOffset(ms, first) + Length(ms.value);
    MemberText(data, pos, ms, first, value, post, rest);
    MembersStand(data, pos, ms, first);
    VisitsAt(data, pos, ms, first, value, post, rest);
  }

  /** The walk over the bytes of an object visits exactly its own members, in order and each with its own
    * value, as far as the first empty key. */
  lemma {:induction false} WalkVisits(data: seq<byte>, pos: nat, ms: Members, first: bool)
    requires At(data, pos, RenderMembers(ms, first)) && WellFormedMembers(ms)
    requires pos + |RenderMembers(ms, first)| == |data|
    ensures Walk(data, pos) == Visited(ms)
    decreases ms
  {
    if ms.Member? {
      var rest := pos + ValueOffset(ms, first) + Length(ms.value) + |ms.post|;
      VisitsMember(data, pos, ms, first, rest);
      WalkVisits(data, rest, ms.rest, false);
    }
  }

  lemma MemberText(data: seq<byte>, pos: nat, ms: Members, first: bool, value: nat, post: nat, rest: nat)
    requires ms.Member? && At(data, pos, RenderMembers(ms, first))
    requires value == pos + ValueOffset(ms, first) && post == value + Length(ms.value) && rest == post + |ms.post|
    ensures |RenderMembers(ms, first)| == MembersLength(ms, first)
    ensures rest <= |data| && data[value..post] == Render(ms.value)
    ensures At(data, rest, RenderMembers(ms.rest, false)) &&
              rest + |RenderMembers(ms.rest, false)| == pos + |RenderMembers(ms, first)|
  {
    PartsStand5(data, pos, ms, first);
    TextOf(data, value, ms.value);
    MembersStand(data, pos, ms, first);
  }

  /** What one step of the walk skips: the member's value, and the whitespace after it. */
  lemma SkipsMember(data: seq<byte>, pos: nat, ms: Members, first: bool, value: nat, post: nat)
    requires ms.Member? && MembersAt(data, pos, ms, first) && WellFormedMembers(ms)
    requires pos + MembersLength(ms, first) == |data|
    requires value == pos + ValueOffset(ms, first) && post == value + Length(ms.value)
    ensures post + |ms.post| <= |data|
    ensures ValueEnd(data, value) == post && QuoteFrom(data, post) == QuoteFrom(data, post + |ms.post|)
  {
    EndsValue(data, value, post, post + |ms.post|, ms);
  }

  /** The end of a member's value, and from there the same next key as past the whitespace. */
  lemma EndsValue(data: seq<byte>, value: nat, post: nat, rest: nat, ms: Members)
    requires ms.Member? && WellFormedMembers(ms)
    requires post == value + Length(ms.value) && rest == post + |ms.post|
    requires ValueAt(data, value, ms.value) && At(data, post, ms.post) && MembersAt(data, rest, ms.rest, false)
    requires rest + MembersLength(ms.rest, false) == |data|
    ensures ValueEnd(data, value) == post
    ensures QuoteFrom(data, post) == QuoteFrom(data, rest)
  {
    assert QuoteFrom(data, post) == QuoteFrom(data, rest) by { WsHasNoQuote(data, post, ms.post); }
    assert ValueEnd(data, value) == post by {
      AfterValue(data, post, ms.post, ms.rest);
      SkipsValue(data, value, ms.value);
    }
  }

  lemma WalkStep(data: seq<byte>, pos: nat, open: nat, key: seq<byte>, value: nat, post: nat, rest: nat)
    requires pos <= |data| && rest <= |data| && QuoteFrom(data, pos) == open
    requires BytesOf(data, open) == key && ValueOf(data, open) == value && ValueEnd(data, value) == post
    requires QuoteFrom(data, post) == QuoteFrom(data, rest)
    ensures Walk(data, pos) == Prepend(key, data[value..post], Walk(data, rest))
  {
  }

  /** The bytes between the braces. */
  function Inner(v: Value): seq<byte>
    requires v.Object?
  {
    v.lead + RenderMembers(v.members, true)
  }

  lemma InnerIsWalked(v: Value)
    requires v.Object? && WellFormed(v)
    ensures Walk(Inner(v), 0) == Visited(v.members)
  {
    var inner := Inner(v);
    assert At(inner, 0, v.lead + RenderMembers(v.members, true)) by { assert inner[0..|inner|] == inner; }
    AtSplit(inner, 0, v.lead, RenderMembers(v.members, true));
    WsHasNoQuote(inner, 0, v.lead);
    WalkVisits(inner, |v.lead|, v.members, true);
  }

  lemma InnerBytes(data: seq<byte>, pos: nat, v: Value)
    requires v.Object? && At(data, pos, Render(v))
    ensures |Render(v)| == Length(v) >= 2 && data[pos + 1..pos + Length(v) - 1] == Inner(v)
  {
    ValueStands(data, pos, v);
    var text := Render(v);
    assert text == [OPEN_BRACE] + (Inner(v) + [CLOSE_BRACE]);
    AtSplit(data, pos, [OPEN_BRACE], Inner(v) + [CLOSE_BRACE]);
    AtSplit(data, pos + 1, Inner(v), [CLOSE_BRACE]);
    AtIsSlice(data, pos + 1, Inner(v));
  }

  lemma ObjectStands(data: seq<byte>, pos: nat, v: Value)
    requires v.Object? && WellFormed(v) && At(data, pos, Render(v))
    ensures ByteAt(data, pos, OPEN_BRACE) && ToClose(data, pos + 1, 1, OPEN_BRACE, CLOSE_BRACE) == pos + |Render(v)|
    ensures |Render(v)| >= 2 && ByteAt(data, pos + |Render(v)| - 1, CLOSE_BRACE)
  {
    ValueStands(data, pos, v);
    ObjectEnds(data, pos, v.lead, v.members);
  }

  lemma CutsObject(data: seq<byte>, pos: nat, v: Value)
    requires v.Object? && WellFormed(v) && At(data, pos, Render(v))
    ensures pos < |data| && data[pos] == OPEN_BRACE
    ensures CutAt(data, pos) == Some(Slice(Inner(v), pos + |Render(v)|))
  {
    InnerBytes(data, pos, v);
    ObjectStands(data, pos, v);
  }

  /** An object is cut out of whatever surrounds it, at its own braces. */
  lemma ObjectIsCut(data: seq<byte>, pos: nat, ws: seq<byte>, v: Value)
    requires v.Object? && WellFormed(v) && AllWs(ws) && At(data, pos, ws) && At(data, pos + |ws|, Render(v))
    ensures ObjectAt(data, pos) == Some(Slice(Inner(v), pos + |ws| + |Render(v)|))
  {
    CutsObject(data, pos + |ws|, v);
    WsPasses(data, pos, ws);
  }

  /** The walk of what was cut out visits the object's own members: never a nested key, never a bracket or a
    * quote inside a string. It visits all of them exactly when no key is empty. */
  lemma ObjectIsWalked(v: Value)
    requires v.Object? && WellFormed(v)
    ensures Walk(Inner(v), 0) == Visited(v.members)
    ensures Walk(Inner(v), 0) == Fields(v.members) <==> NoKeyEmpty(v.members)
  {
    InnerIsWalked(v);
    AllVisitedIff(v.members);
  }

  // ------------------------------------------------------------------------------------------------
  // Arrays of objects
  // ------------------------------------------------------------------------------------------------

  predicate AllObjects(items: Items) {
    items.Item? ==> items.value.Object? && AllObjects(items.rest)
  }

  function Inners(items: Items): seq<seq<byte>>
    requires AllObjects(items)
  {
    if items.NoItems? then [] else [Inner(items.value)] + Inners(items.rest)
  }

  /** Up to the next object. */
  lemma FindsObject(data: seq<byte>, pos: nat, first: bool, ws: seq<byte>)
    requires At(data, pos, Separator(first)) && At(data, pos + |Separator(first)|, ws) && AllWs(ws)
    ensures ObjectsFrom(data, pos) == ObjectsFrom(data, pos + |Separator(first)| + |ws|)
  {
    SeparatorStands(data, pos, first);
    WsPasses(data, pos + |Separator(first)|, ws);
  }

  /** That object, and past the whitespace after it. */
  lemma TakesObject(data: seq<byte>, pos: nat, v: Value, ws: seq<byte>)
    requires v.Object? && WellFormed(v) && At(data, pos, Render(v)) && At(data, pos + |Render(v)|, ws) && AllWs(ws)
    ensures ObjectsFrom(data, pos) == [Inner(v)] + ObjectsFrom(data, pos + |Render(v)| + |ws|)
  {
    CutsObject(data, pos, v);
    WsPasses(data, pos + |Render(v)|, ws);
  }

  lemma HandsOutStanding(
    data: seq<byte>, pos: nat, first: bool, pre: seq<byte>, v: Value, post: seq<byte>, value: nat, next: nat)
    requires v.Object? && WellFormed(v) && AllWs(pre) && AllWs(post)
    requires value == pos + |Separator(first)| + |pre| && next == value + |Render(v)| + |post|
    requires At(data, pos, Separator(first)) && At(data, pos + |Separator(first)|, pre)
    requires At(data, value, Render(v)) && At(data, value + |Render(v)|, post)
    ensures ObjectsFrom(data, pos) == [Inner(v)] + ObjectsFrom(data, next)
  {
    FindsObject(data, pos, first, pre);
    TakesObject(data, value, v, post);
  }

  lemma HandsOutOne(data: seq<byte>, pos: nat, items: Items, first: bool, next: nat)
    requires items.Item? && At(data, pos, RenderItems(items, first)) && WellFormedItems(items) && AllObjects(items)
    requires next == pos + |Separator(first)| + |items.pre| + |Render(items.value)| + |items.post|
    ensures At(data, next, RenderItems(items.rest, false))
    ensures next + |RenderItems(items.rest, false)| == pos + |RenderItems(items, first)|
    ensures pos <= |data| && ObjectsFrom(data, pos) == [Inner(items.value)] + ObjectsFrom(data, next)
  {
    PartsStand(data, pos, Separator(first), items.pre, Render(items.value), items.post, RenderItems(items.rest, false));
    var value := pos + |Separator(first)| + |items.pre|;
    HandsOutStanding(data, pos, first, items.pre, items.value, items.post, value, next);
  }

  /** An array of objects is handed out object by object, in order, and then ends. */
  lemma {:induction false} EveryObject(data: seq<byte>, pos: nat, items: Items, first: bool)
    requires At(data, pos, RenderItems(items, first)) && WellFormedItems(items) && AllObjects(items)
    requires ByteAt(data, pos + |RenderItems(items, first)|, CLOSE_BRACKET)
    ensures ObjectsFrom(data, pos) == Inners(items)
    decreases items
  {
    if items.Item? {
      var next := pos + |Separator(first)| + |items.pre| + |Render(items.value)| + |items.post|;
      HandsOutOne(data, pos, items, first, next);
      EveryObject(data, next, items.rest, false);
    } else {
      assert data[pos] == CLOSE_BRACKET;
    }
  }
}

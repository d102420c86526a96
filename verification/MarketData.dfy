/** FIX market data: splitting the repeating group of a `35=W` or a `35=X` into its entries. */
module MarketData {
  import opened Wrappers
  import opened Bytes
  import opened FixFields
  import FixDecimal
  import UtcTime

  const MD_MAX_ENTRIES: nat := 32
  const FIX_TEXT_LEN: nat := 32

  const MSG_TYPE: nat := 35
  const MSG_SEQ_NUM: nat := 34
  const SENDING_TIME: nat := 52
  const POSS_DUP_FLAG: nat := 43
  const SYMBOL: nat := 55
  const MD_REQ_ID: nat := 262
  const NO_MD_ENTRIES: nat := 268
  const MD_ENTRY_TYPE: nat := 269
  const MD_ENTRY_PX: nat := 270
  const MD_ENTRY_SIZE: nat := 271
  const MD_ENTRY_DATE: nat := 272
  const MD_ENTRY_TIME: nat := 273
  const MD_UPDATE_ACTION: nat := 279
  const NUMBER_OF_ORDERS: nat := 346
  const MD_PRICE_LEVEL: nat := 1023

  const BID: byte := 0x30
  const OFFER: byte := 0x31

  datatype MdError =
    | MalformedField
    | BadValue(tag: nat)
    | Precision(tag: nat)
    | MissingTag(tag: nat)
    | UnexpectedMsgType(first: byte)
    | UnknownUpdateAction(code: byte)
    | GroupTagOutsideEntry(tag: nat)
    | TooManyEntries(declared: nat, max: nat)
    | EntryCount(declared: nat, found: nat)

  datatype Action = New | Change | Delete | DeleteThru | DeleteFrom | Overlay

  /** How the values of a venue's fields are read. */
  datatype Scales = Scales(
    price: seq<byte> -> Result<int, MdError>,
    size: seq<byte> -> Result<int, MdError>,
    date: seq<byte> -> Result<nat, MdError>,
    time: seq<byte> -> Result<nat, MdError>,
    stamp: seq<byte> -> Result<nat, MdError>)

  /** An entry; the type byte 0 stands for "not read yet", an option for a value and its flag. */
  datatype Entry = Entry(
    entryType: byte, action: Action, price: Option<int>, size: Option<int>, date: Option<nat>, time: Option<nat>,
    orderCount: Option<nat>, level: nat, explicitLevel: bool, symbol: seq<byte>)

  const EMPTY_ENTRY: Entry := Entry(0, New, None, None, None, None, None, 0, false, [])

  datatype Kind = Unset | Snapshot | Incremental

  datatype Message = Message(
    kind: Kind, seqNum: nat, sendingTime: nat, possDup: bool, reqId: seq<byte>, symbol: seq<byte>,
    declared: nat, entries: seq<Entry>)

  /** The loop's variables. */
  datatype State = State(msg: Message, cur: Option<Entry>, bidSeen: nat, askSeen: nat, haveType: bool, haveSeq: bool)

  const START: State := State(Message(Unset, 0, 0, false, [], [], 0, []), None, 0, 0, false, false)

  // ------------------------------------------------------------------------------------------------
  // Values
  // ------------------------------------------------------------------------------------------------

  function Scaled(tag: nat, value: seq<byte>, decimals: nat): Result<int, MdError> {
    match FixDecimal.ScaledDecimal(value, decimals)
    case Ok(v) => Ok(v)
    case Err(e) => Err(if e == FixDecimal.DecimalError.Precision then Precision(tag) else BadValue(tag))
  }

  function ScaledUnsigned(tag: nat, value: seq<byte>, decimals: nat): Result<int, MdError> {
    match Scaled(tag, value, decimals)
    case Err(e) => Err(e)
    case Ok(v) => if v < 0 then Err(BadValue(tag)) else Ok(v)
  }

  function Instant(tag: nat, t: Option<nat>): Result<nat, MdError> {
    if t.None? then Err(BadValue(tag)) else Ok(t.value)
  }

  /** The readers for a pair of decimal scales. */
  function NewScales(priceDecimals: nat, quantityDecimals: nat): Scales {
    Scales(value => Scaled(MD_ENTRY_PX, value, priceDecimals),
           value => ScaledUnsigned(MD_ENTRY_SIZE, value, quantityDecimals),
           value => Instant(MD_ENTRY_DATE, UtcTime.ParseUtcDate(value)),
           value => Instant(MD_ENTRY_TIME, UtcTime.ParseUtcTime(value)),
           value => Instant(SENDING_TIME, UtcTime.ParseUtcTimestamp(value)))
  }

  function AsU64(f: Field): Result<nat, MdError> {
    Instant(f.tag, ParseU64(f.value))
  }

  function AsU32(f: Field): Result<nat, MdError> {
    match AsU64(f)
    case Err(e) => Err(e)
    case Ok(v) => if v >= U32_LIMIT then Err(BadValue(f.tag)) else Ok(v)
  }

  function FirstByte(f: Field): Result<byte, MdError> {
    if |f.value| == 1 then Ok(f.value[0]) else Err(BadValue(f.tag))
  }

  function ActionOf(b: byte): Result<Action, MdError> {
    match b
    case 0x30 => Ok(New)
    case 0x31 => Ok(Change)
    case 0x32 => Ok(Delete)
    case 0x33 => Ok(DeleteThru)
    case 0x34 => Ok(DeleteFrom)
    case 0x35 => Ok(Overlay)
    case _ => Err(UnknownUpdateAction(b))
  }

  function FixText(value: seq<byte>): seq<byte> {
    if |value| <= FIX_TEXT_LEN then value else value[..FIX_TEXT_LEN]
  }

  /** `MDPriceLevel` counts from one; the entry's level from zero, in a byte. */
  function LevelOf(n: nat): nat {
    if n == 0 then 0 else if n - 1 > 255 then 255 else n - 1
  }

  // ------------------------------------------------------------------------------------------------
  // The loop
  // ------------------------------------------------------------------------------------------------

  predicate IsGroupTag(tag: nat) {
    tag in {MD_ENTRY_TYPE, MD_ENTRY_PX, MD_ENTRY_SIZE, MD_ENTRY_DATE, MD_ENTRY_TIME, MD_UPDATE_ACTION,
            NUMBER_OF_ORDERS, MD_PRICE_LEVEL}
  }

  function Delimiter(kind: Kind): nat {
    if kind == Incremental then MD_UPDATE_ACTION else MD_ENTRY_TYPE
  }

  /** The field is already there in the entry. */
  predicate Repeats(e: Entry, tag: nat) {
    if tag == MD_ENTRY_TYPE then e.entryType != 0
    else if tag == MD_ENTRY_PX then e.price.Some?
    else if tag == MD_ENTRY_SIZE then e.size.Some?
    else if tag == MD_ENTRY_DATE then e.date.Some?
    else if tag == MD_ENTRY_TIME then e.time.Some?
    else if tag == NUMBER_OF_ORDERS then e.orderCount.Some?
    else tag == MD_PRICE_LEVEL && e.explicitLevel
  }

  function Then<T, U>(r: Result<T, MdError>, f: T -> U): Result<U, MdError> {
    if r.Err? then Err(r.error) else Ok(f(r.value))
  }

  /** One group field into the entry. */
  function SetField(sc: Scales, e: Entry, f: Field): Result<Entry, MdError> {
    if f.tag == MD_ENTRY_TYPE then Then(FirstByte(f), b => e.(entryType := b))
    else if f.tag == MD_UPDATE_ACTION then
      (match FirstByte(f)
       case Err(x) => Err(x)
       case Ok(b) => Then(ActionOf(b), a => e.(action := a)))
    else if f.tag == MD_ENTRY_PX then Then(sc.price(f.value), v => e.(price := Some(v)))
    else if f.tag == MD_ENTRY_SIZE then Then(sc.size(f.value), v => e.(size := Some(v)))
    else if f.tag == MD_ENTRY_DATE then Then(sc.date(f.value), v => e.(date := Some(v)))
    else if f.tag == MD_ENTRY_TIME then Then(sc.time(f.value), v => e.(time := Some(v)))
    else if f.tag == NUMBER_OF_ORDERS then Then(AsU32(f), v => e.(orderCount := Some(v)))
    else if f.tag == MD_PRICE_LEVEL then Then(AsU32(f), v => e.(level := LevelOf(v), explicitLevel := true))
    else Ok(e)
  }

  function Bump(seen: nat): nat {
    if seen >= 255 then 255 else seen + 1
  }

  /** `push_entry`: an implied level is the number of entries seen before on its side. */
  function PushEntry(st: State, e: Entry): Result<State, MdError> {
    if e.entryType == 0 then Err(MissingTag(MD_ENTRY_TYPE))
    else if |st.msg.entries| >= MD_MAX_ENTRIES then
      Err(TooManyEntries(if st.msg.declared > |st.msg.entries| then st.msg.declared else |st.msg.entries| + 1,
        MD_MAX_ENTRIES))
    else
      var implied := if e.entryType == BID then st.bidSeen else if e.entryType == OFFER then st.askSeen else 0;
      var done := if e.explicitLevel then e else e.(level := implied);
      Ok(st.(msg := st.msg.(entries := st.msg.entries + [done]), cur := None,
             bidSeen := if e.entryType == BID then Bump(st.bidSeen) else st.bidSeen,
             askSeen := if e.entryType == OFFER then Bump(st.askSeen) else st.askSeen))
  }

  /** The open entry, if any, is done. */
  function Flush(st: State): Result<State, MdError> {
    if st.cur.None? then Ok(st) else PushEntry(st, st.cur.value)
  }

  function GroupStep(sc: Scales, st: State, f: Field): Result<State, MdError> {
    if st.cur.None? then Err(GroupTagOutsideEntry(f.tag))
    else Then(SetField(sc, st.cur.value, f), e => st.(cur := Some(e)))
  }

  function HeaderStep(sc: Scales, st: State, f: Field): Result<State, MdError> {
    if f.tag == MSG_TYPE then
      if f.value == [0x57] then Ok(st.(msg := st.msg.(kind := Snapshot), haveType := true))
      else if f.value == [0x58] then Ok(st.(msg := st.msg.(kind := Incremental), haveType := true))
      else Err(UnexpectedMsgType(if f.value == [] then 0 else f.value[0]))
    else if f.tag == MSG_SEQ_NUM then Then(AsU64(f), v => st.(msg := st.msg.(seqNum := v), haveSeq := true))
    else if f.tag == SENDING_TIME then Then(sc.stamp(f.value), v => st.(msg := st.msg.(sendingTime := v)))
    else if f.tag == POSS_DUP_FLAG then Ok(st.(msg := st.msg.(possDup := f.value == [0x59])))
    else if f.tag == MD_REQ_ID then Ok(st.(msg := st.msg.(reqId := FixText(f.value))))
    else if f.tag == NO_MD_ENTRIES then Then(AsU32(f), v => st.(msg := st.msg.(declared := v)))
    else if f.tag == SYMBOL then
      (if st.cur.Some? then Ok(st.(cur := Some(st.cur.value.(symbol := FixText(f.value)))))
       else Ok(st.(msg := st.msg.(symbol := FixText(f.value)))))
    else Ok(st)
  }

  /** One field: the delimiter, or a field the open entry already has, opens the next entry. */
  function Step(sc: Scales, st: State, f: Field): Result<State, MdError> {
    if !IsGroupTag(f.tag) then HeaderStep(sc, st, f)
    else if f.tag == Delimiter(st.msg.kind) || (st.cur.Some? && Repeats(st.cur.value, f.tag)) then
      match Flush(st)
      case Err(e) => Err(e)
      case Ok(next) => GroupStep(sc, next.(cur := Some(EMPTY_ENTRY)), f)
    else GroupStep(sc, st, f)
  }

  function Fold(sc: Scales, fs: seq<Field>, st: State): Result<State, MdError>
    decreases |fs|
  {
    if fs == [] then Ok(st)
    else
      match Step(sc, st, fs[0])
      case Err(e) => Err(e)
      case Ok(next) => Fold(sc, fs[1..], next)
  }

  function Finish(st: State): Result<Message, MdError> {
    match Flush(st)
    case Err(e) => Err(e)
    case Ok(done) =>
      if !done.haveType then Err(MissingTag(MSG_TYPE))
      else if !done.haveSeq then Err(MissingTag(MSG_SEQ_NUM))
      else if done.msg.declared != |done.msg.entries| then Err(EntryCount(done.msg.declared, |done.msg.entries|))
      else Ok(done.msg)
  }

  /** `parse_md_message`, on a frame's body. */
  function ParseBody(sc: Scales, body: seq<byte>): Result<Message, MdError> {
    var (fs, whole) := FieldsFrom(body, 0);
    match Fold(sc, fs, START)
    case Err(e) => Err(e)
    case Ok(st) => if !whole then Err(MalformedField) else Finish(st)
  }

  method ParseMessage(sc: Scales, body: seq<byte>) returns (r: Result<Message, MdError>)
    ensures r == ParseBody(sc, body)
  {
    var fields := new Fields(body);
    var st := START;
    ghost var all := FieldsFrom(body, 0);
    while true
      invariant fields.Valid() && fresh(fields) && fields.body == body
      invariant Fold(sc, all.0, START) == Fold(sc, fields.Remaining().0, st) && all.1 == fields.Remaining().1
      decreases |body| - fields.pos
    {
      ghost var before := fields.Remaining();
      ghost var pos := fields.pos;
      var item := fields.Next();
      if item.None? {
        break;
      }
      match item.value {
        case Malformed(_) =>
          return Err(MalformedField);
        case Good(f) =>
          assert before.0[1..] == fields.Remaining().0;
          var next := Step(sc, st, f);
          if next.Err? {
            return Err(next.error);
          }
          assert fields.pos > pos;
          st := next.value;
      }
    }
    r := Finish(st);
  }

  // ------------------------------------------------------------------------------------------------
  // Encoded entries
  // ------------------------------------------------------------------------------------------------

  /** The value a run of fields gives a tag. */
  function ValueOf(fs: seq<Field>, tag: nat): Option<seq<byte>>
    decreases |fs|
  {
    if fs == [] then None
    else if fs[|fs| - 1].tag == tag then Some(fs[|fs| - 1].value)
    else ValueOf(fs[..|fs| - 1], tag)
  }

  predicate Fresh(fs: seq<Field>, tag: nat) {
    forall i :: 0 <= i < |fs| ==> fs[i].tag != tag
  }

  predicate DistinctTags(fs: seq<Field>) {
    forall i, j :: 0 <= i < j < |fs| ==> fs[i].tag != fs[j].tag
  }

  predicate Read<T(==)>(v: Option<seq<byte>>, read: seq<byte> -> Result<T, MdError>, x: Option<T>) {
    if v.None? then x.None? else read(v.value).Ok? && x == Some(read(v.value).value)
  }

  /** One to nineteen digits. */
  predicate IsDigits(value: seq<byte>) {
    1 <= |value| <= 19 && AllDigits(value)
  }

  /** The text of a number below `limit`. */
  predicate IsNumber(value: seq<byte>, limit: nat) {
    IsDigits(value) && DigitsValue(value) < limit
  }

  /** The text is the value, or its first thirty-two bytes. */
  predicate Clipped(text: seq<byte>, value: seq<byte>) {
    text <= value && |text| == if |value| < 32 then |value| else 32
  }

  predicate SaysType(v: Option<seq<byte>>, e: Entry) {
    if v.None? then e.entryType == 0 else v.value == [e.entryType] && e.entryType != 0
  }

  /** The codes of the six actions. */
  function CodeOf(a: Action): byte {
    match a
    case New => 0x30
    case Change => 0x31
    case Delete => 0x32
    case DeleteThru => 0x33
    case DeleteFrom => 0x34
    case Overlay => 0x35
  }

  predicate SaysAction(v: Option<seq<byte>>, e: Entry) {
    if v.None? then e.action == New else v.value == [CodeOf(e.action)]
  }

  predicate SaysOrders(v: Option<seq<byte>>, e: Entry) {
    if v.None? then e.orderCount.None?
    else IsNumber(v.value, 0x1_0000_0000) && e.orderCount == Some(DigitsValue(v.value))
  }

  /** A level is written from one on and held from zero on, up to 255. */
  predicate SaysLevel(v: Option<seq<byte>>, e: Entry) {
    if v.None? then !e.explicitLevel && e.level == 0
    else
      && e.explicitLevel && IsNumber(v.value, 0x1_0000_0000)
      && var n := DigitsValue(v.value); e.level == if n == 0 then 0 else if n <= 255 then n - 1 else 255
  }

  predicate SaysSymbol(v: Option<seq<byte>>, text: seq<byte>) {
    if v.None? then text == [] else Clipped(text, v.value)
  }

  /** The entry has what the fields say, and nothing else; a field may be missing. */
  predicate Says(sc: Scales, fs: seq<Field>, e: Entry) {
    && SaysType(ValueOf(fs, 269), e) && SaysAction(ValueOf(fs, 279), e)
    && Read(ValueOf(fs, 270), sc.price, e.price) && Read(ValueOf(fs, 271), sc.size, e.size)
    && Read(ValueOf(fs, 272), sc.date, e.date) && Read(ValueOf(fs, 273), sc.time, e.time)
    && SaysOrders(ValueOf(fs, 346), e) && SaysLevel(ValueOf(fs, 1023), e) && SaysSymbol(ValueOf(fs, 55), e.symbol)
  }

  predicate IsHeaderTag(tag: nat) {
    tag in {34, 35, 43, 52, 262, 268}
  }

  /** The tag that opens an entry: 279 in an incremental refresh and 269 otherwise. */
  function OpeningTag(kind: Kind): nat {
    if kind == Incremental then 279 else 269
  }

  /** A run of fields encodes the entry: no tag twice, and none of the opening tag behind the first; a tag the
    * parser does not know may be among them. */
  predicate Encodes(sc: Scales, kind: Kind, fs: seq<Field>, e: Entry) {
    && fs != [] && DistinctTags(fs) && (forall i :: 0 <= i < |fs| ==> !IsHeaderTag(fs[i].tag))
    && (forall i :: 1 <= i < |fs| ==> fs[i].tag != OpeningTag(kind))
    && Says(sc, fs, e)
  }

  /** The next entry can begin with this field: the opening tag, or a value the entry before it has already. */
  predicate Follows(kind: Kind, before: seq<Field>, tag: nat) {
    tag == OpeningTag(kind) || (tag in {269, 270, 271, 272, 273, 346, 1023} && ValueOf(before, tag).Some?)
  }

  /** A single field reads without error. */
  predicate Reads(sc: Scales, f: Field) {
    SetField(sc, EMPTY_ENTRY, f).Ok? && (f.tag == MD_ENTRY_TYPE ==> f.value != [0])
  }

  lemma ValueStep(fs: seq<Field>, f: Field, tag: nat)
    ensures ValueOf(fs + [f], tag) == if f.tag == tag then Some(f.value) else ValueOf(fs, tag)
  {
    assert (fs + [f])[..|fs|] == fs;
  }

  lemma {:induction false} FreshHasNone(fs: seq<Field>, tag: nat)
    ensures Fresh(fs, tag) <==> ValueOf(fs, tag).None?
    decreases |fs|
  {
    if fs != [] {
      FreshHasNone(fs[..|fs| - 1], tag);
      assert fs == fs[..|fs| - 1] + [fs[|fs| - 1]];
    }
  }

  lemma {:induction false} ValueOfAt(fs: seq<Field>, i: nat)
    requires i < |fs| && DistinctTags(fs)
    ensures ValueOf(fs, fs[i].tag) == Some(fs[i].value)
    decreases |fs|
  {
    if i < |fs| - 1 {
      ValueOfAt(fs[..|fs| - 1], i);
    }
  }

  /** Every field of an encoding reads. */
  lemma EncodedReads(sc: Scales, fs: seq<Field>, e: Entry, i: nat)
    requires i < |fs| && DistinctTags(fs) && Says(sc, fs, e)
    ensures Reads(sc, fs[i])
  {
    ValueOfAt(fs, i);
    var f := fs[i];
    assert f == Field(f.tag, f.value);
  }

  /** A fresh group field goes into the open entry, which then says one thing more. */
  lemma SetsField(sc: Scales, done: seq<Field>, e: Entry, f: Field)
    requires Says(sc, done, e) && IsGroupTag(f.tag) && Fresh(done, f.tag) && Reads(sc, f)
    ensures SetField(sc, e, f).Ok? && Says(sc, done + [f], SetField(sc, e, f).value)
    ensures !Repeats(e, f.tag)
  {
    FreshHasNone(done, f.tag);
    SaysMore(done, f);
    assert f == Field(f.tag, f.value);
  }

  lemma SaysMore(done: seq<Field>, f: Field)
    ensures forall tag {:trigger ValueOf(done + [f], tag)} ::
              ValueOf(done + [f], tag) == if f.tag == tag then Some(f.value) else ValueOf(done, tag)
  {
    forall tag ensures ValueOf(done + [f], tag) == if f.tag == tag then Some(f.value) else ValueOf(done, tag) {
      ValueStep(done, f, tag);
    }
  }

  lemma SetsSymbol(sc: Scales, done: seq<Field>, e: Entry, f: Field)
    requires Says(sc, done, e) && f.tag == SYMBOL
    ensures Says(sc, done + [f], e.(symbol := FixText(f.value)))
  {
    SaysMore(done, f);
  }

  /** Two entries that say the same are the same. */
  lemma SaysOne(sc: Scales, fs: seq<Field>, a: Entry, b: Entry)
    requires Says(sc, fs, a) && Says(sc, fs, b)
    ensures a == b
  {
  }

  predicate InGroup(f: Field, kind: Kind) {
    !IsHeaderTag(f.tag) && f.tag != Delimiter(kind)
  }

  /** The rest of an entry's fields fill the open entry and touch nothing else. */
  lemma {:induction false} FillsEntry(sc: Scales, st: State, done: seq<Field>, todo: seq<Field>) returns (e: Entry)
    requires st.cur.Some? && Says(sc, done, st.cur.value) && DistinctTags(done + todo)
    requires forall i :: 0 <= i < |todo| ==> InGroup(todo[i], st.msg.kind) && Reads(sc, todo[i])
    ensures Fold(sc, todo, st) == Ok(st.(cur := Some(e))) && Says(sc, done + todo, e)
    decreases |todo|
  {
    if todo == [] {
      assert done + todo == done;
      e := st.cur.value;
    } else {
      var f := todo[0];
      assert Fresh(done, f.tag) by {
        assert (done + todo)[|done|] == f;
        assert forall i :: 0 <= i < |done| ==> (done + todo)[i] == done[i];
      }
      var next := FillsOne(sc, st, done, f);
      assert (done + [f]) + todo[1..] == done + todo;
      e := FillsEntry(sc, next, done + [f], todo[1..]);
    }
  }

  lemma FillsOne(sc: Scales, st: State, done: seq<Field>, f: Field) returns (next: State)
    requires st.cur.Some? && Says(sc, done, st.cur.value) && Fresh(done, f.tag)
    requires InGroup(f, st.msg.kind) && Reads(sc, f)
    ensures next.cur.Some? && Says(sc, done + [f], next.cur.value)
    ensures Step(sc, st, f) == Ok(next) && next == st.(cur := next.cur)
  {
    var e := st.cur.value;
    if f.tag == SYMBOL {
      SetsSymbol(sc, done, e, f);
      next := st.(cur := Some(e.(symbol := FixText(f.value))));
    } else if !IsGroupTag(f.tag) {
      SaysMore(done, f);
      next := st;
    } else {
      SetsField(sc, done, e, f);
      next := st.(cur := Some(SetField(sc, e, f).value));
    }
  }

  lemma EmptySaysNothing(sc: Scales)
    ensures Says(sc, [], EMPTY_ENTRY)
  {
  }

  /** What makes a field open an entry. */
  predicate Opening(st: State, tag: nat) {
    tag == Delimiter(st.msg.kind) || (IsGroupTag(tag) && st.cur.Some? && Repeats(st.cur.value, tag))
  }

  lemma SaysRepeats(sc: Scales, fs: seq<Field>, st: State, tag: nat)
    requires st.cur.Some? && Says(sc, fs, st.cur.value) && Follows(st.msg.kind, fs, tag)
    ensures Opening(st, tag)
  {
  }

  /** The opening field closes the entry before it and opens the next. */
  lemma OpensWith(sc: Scales, st: State, f: Field) returns (first: State)
    requires Flush(st).Ok? && Opening(st, f.tag) && Reads(sc, f)
    ensures Step(sc, st, f) == Ok(first) && first == Flush(st).value.(cur := first.cur)
    ensures first.cur.Some? && Says(sc, [f], first.cur.value)
  {
    EmptySaysNothing(sc);
    SetsField(sc, [], EMPTY_ENTRY, f);
    assert [] + [f] == [f];
    first := Flush(st).value.(cur := Some(SetField(sc, EMPTY_ENTRY, f).value));
  }

  /** An encoded entry closes the one before it and is left open. */
  lemma OpensEntry(sc: Scales, st: State, fs: seq<Field>, e: Entry)
    requires Encodes(sc, st.msg.kind, fs, e) && Opening(st, fs[0].tag) && Flush(st).Ok?
    ensures Fold(sc, fs, st) == Ok(Flush(st).value.(cur := Some(e)))
  {
    var f, rest := fs[0], fs[1..];
    EncodedReads(sc, fs, e, 0);
    var first := OpensWith(sc, st, f);
    assert [f] + rest == fs;
    forall i | 0 <= i < |rest| ensures InGroup(rest[i], st.msg.kind) && Reads(sc, rest[i]) {
      EncodedReads(sc, fs, e, i + 1);
    }
    var filled := FillsEntry(sc, first, [f], rest);
    SaysOne(sc, fs, filled, e);
  }

  // ------------------------------------------------------------------------------------------------
  // The whole group
  // ------------------------------------------------------------------------------------------------

  function Concat(ws: seq<seq<Field>>): seq<Field> {
    if ws == [] then [] else ws[0] + Concat(ws[1..])
  }

  function PushAll(st: State, es: seq<Entry>): Result<State, MdError>
    decreases |es|
  {
    if es == [] then Ok(st)
    else
      match PushEntry(st, es[0])
      case Err(e) => Err(e)
      case Ok(next) => PushAll(next, es[1..])
  }

  lemma {:induction false} FoldBoth(sc: Scales, a: seq<Field>, b: seq<Field>, st: State)
    ensures Fold(sc, a + b, st) == match Fold(sc, a, st) case Err(e) => Err(e) case Ok(mid) => Fold(sc, b, mid)
    decreases |a|
  {
    if a == [] {
      assert a + b == b;
    } else {
      assert (a + b)[1..] == a[1..] + b;
      if Step(sc, st, a[0]).Ok? {
        FoldBoth(sc, a[1..], b, Step(sc, st, a[0]).value);
      }
    }
  }

  /** Each run encodes its entry, and begins where the one before it cannot go on. */
  predicate AllEncode(sc: Scales, kind: Kind, ws: seq<seq<Field>>, es: seq<Entry>) {
    && |ws| == |es| && (forall i :: 0 <= i < |ws| ==> Encodes(sc, kind, ws[i], es[i]))
    && forall i :: 0 < i < |ws| ==> Follows(kind, ws[i - 1], ws[i][0].tag)
  }

  predicate BeginsOpening(st: State, ws: seq<seq<Field>>) {
    ws != [] ==> ws[0] != [] && Opening(st, ws[0][0].tag)
  }

  lemma RestEncodes(sc: Scales, kind: Kind, ws: seq<seq<Field>>, es: seq<Entry>, mid: State)
    requires AllEncode(sc, kind, ws, es) && ws != [] && mid.msg.kind == kind && mid.cur == Some(es[0])
    ensures AllEncode(sc, kind, ws[1..], es[1..]) && BeginsOpening(mid, ws[1..])
  {
    if |ws| > 1 {
      assert Follows(kind, ws[0], ws[1][0].tag);
      SaysRepeats(sc, ws[0], mid, ws[1][0].tag);
    }
    forall i | 0 < i < |ws| - 1 ensures Follows(kind, ws[1..][i - 1], ws[1..][i][0].tag) {
      assert ws[1..][i] == ws[i + 1] && ws[1..][i - 1] == ws[i];
    }
  }

  /** Folding and then flushing. */
  function Flushed(r: Result<State, MdError>): Result<State, MdError> {
    if r.Err? then r else Flush(r.value)
  }

  lemma {:induction false} PushesAll(sc: Scales, st: State, ws: seq<seq<Field>>, es: seq<Entry>)
    requires AllEncode(sc, st.msg.kind, ws, es) && BeginsOpening(st, ws) && Flush(st).Ok?
    ensures Flushed(Fold(sc, Concat(ws), st)) == PushAll(Flush(st).value, es)
    decreases |ws|
  {
    if ws != [] {
      OpensEntry(sc, st, ws[0], es[0]);
      var mid := Flush(st).value.(cur := Some(es[0]));
      FoldBoth(sc, ws[0], Concat(ws[1..]), st);
      RestEncodes(sc, st.msg.kind, ws, es, mid);
      assert PushEntry(mid, es[0]) == PushEntry(Flush(st).value, es[0]);
      if PushEntry(mid, es[0]).Ok? {
        PushesAll(sc, mid, ws[1..], es[1..]);
      } else {
        StopsAt(sc, mid, ws[1..]);
      }
    }
  }

  /** An entry that cannot be pushed stops the parse at the next opening field or at the end. */
  lemma StopsAt(sc: Scales, st: State, ws: seq<seq<Field>>)
    requires BeginsOpening(st, ws) && Flush(st).Err?
    ensures Flushed(Fold(sc, Concat(ws), st)) == Err(Flush(st).error)
  {
    if ws != [] {
      assert Concat(ws)[0] == ws[0][0];
      assert Step(sc, st, Concat(ws)[0]) == Err(Flush(st).error);
    }
  }
}

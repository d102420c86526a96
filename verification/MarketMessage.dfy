/** What a market-data message says, of its header's bytes and its entries', and what else is refused. */
module MarketMessage {
  import opened Wrappers
  import opened Bytes
  import opened FixFields
  import opened DecimalText
  import opened MarketData
  import FixDecimal
  import UtcTime

  // ------------------------------------------------------------------------------------------------
  // The header
  // ------------------------------------------------------------------------------------------------

  /** A field in front of the group that the parser takes. */
  predicate HeaderReads(sc: Scales, f: Field) {
    && (f.tag == 35 ==> f.value == [0x57] || f.value == [0x58])
    && (f.tag == 34 ==> IsDigits(f.value))
    && (f.tag == 52 ==> sc.stamp(f.value).Ok?)
    && (f.tag == 268 ==> IsNumber(f.value, 0x1_0000_0000))
  }

  /** What is reported of a field it does not take. */
  function HeaderFault(sc: Scales, f: Field): MdError
    requires !HeaderReads(sc, f)
  {
    if f.tag == 35 then UnexpectedMsgType(if f.value == [] then 0 else f.value[0])
    else if f.tag == 52 then sc.stamp(f.value).error
    else BadValue(f.tag)
  }

  predicate OutsideGroup(fs: seq<Field>) {
    forall i :: 0 <= i < |fs| ==> fs[i].tag !in {269, 270, 271, 272, 273, 279, 346, 1023}
  }

  predicate AllRead(sc: Scales, fs: seq<Field>) {
    forall i :: 0 <= i < |fs| ==> HeaderReads(sc, fs[i])
  }

  predicate SaysKind(v: Option<seq<byte>>, kind: Kind) {
    match kind
    case Unset => v.None?
    case Snapshot => v == Some([0x57])
    case Incremental => v == Some([0x58])
  }

  predicate SaysNumber(v: Option<seq<byte>>, n: nat) {
    if v.None? then n == 0 else IsDigits(v.value) && n == DigitsValue(v.value)
  }

  predicate SaysStamp(sc: Scales, v: Option<seq<byte>>, ns: nat) {
    if v.None? then ns == 0 else sc.stamp(v.value) == Ok(ns)
  }

  /** The message has what the header's fields say, the last one of each tag. */
  predicate HeaderSays(sc: Scales, fs: seq<Field>, m: Message) {
    && SaysKind(ValueOf(fs, 35), m.kind) && SaysNumber(ValueOf(fs, 34), m.seqNum)
    && SaysStamp(sc, ValueOf(fs, 52), m.sendingTime) && (m.possDup <==> ValueOf(fs, 43) == Some([0x59]))
    && SaysSymbol(ValueOf(fs, 262), m.reqId) && SaysSymbol(ValueOf(fs, 55), m.symbol)
    && SaysNumber(ValueOf(fs, 268), m.declared)
  }

  /** The state behind the header's fields. */
  predicate Behind(sc: Scales, fs: seq<Field>, st: State) {
    && HeaderSays(sc, fs, st.msg) && st.msg.entries == [] && st.cur.None? && st.bidSeen == 0 && st.askSeen == 0
    && (st.haveType <==> ValueOf(fs, 35).Some?) && (st.haveSeq <==> ValueOf(fs, 34).Some?)
  }

  lemma BehindNothing(sc: Scales)
    ensures Behind(sc, [], START)
  {
  }

  lemma HeaderTakes(sc: Scales, done: seq<Field>, st: State, f: Field)
    requires Behind(sc, done, st) && OutsideGroup([f]) && HeaderReads(sc, f)
    ensures Step(sc, st, f).Ok? && Behind(sc, done + [f], Step(sc, st, f).value)
  {
    NotInGroup(f);
    HeaderValues(done, f);
    if f.tag == 55 || f.tag == 262 {
      assert Clipped(FixText(f.value), f.value);
    } else if f.tag == 34 || f.tag == 268 {
      assert IsDigits(f.value);
    }
  }

  lemma NotInGroup(f: Field)
    requires OutsideGroup([f])
    ensures !IsGroupTag(f.tag)
  {
    assert [f][0].tag !in {269, 270, 271, 272, 273, 279, 346, 1023};
  }

  lemma HeaderValues(done: seq<Field>, f: Field)
    ensures forall tag {:trigger ValueOf(done + [f], tag)} | tag in {34, 35, 43, 52, 55, 262, 268} ::
              ValueOf(done + [f], tag) == if f.tag == tag then Some(f.value) else ValueOf(done, tag)
  {
    SaysMore(done, f);
  }

  lemma HeaderRefuses(sc: Scales, st: State, f: Field)
    requires OutsideGroup([f]) && !HeaderReads(sc, f)
    ensures Step(sc, st, f) == Err(HeaderFault(sc, f))
  {
    NotInGroup(f);
  }

  /** A header is taken exactly when each of its fields reads. */
  lemma {:induction false} HeaderFolds(sc: Scales, done: seq<Field>, todo: seq<Field>, st: State)
    requires Behind(sc, done, st) && OutsideGroup(todo)
    ensures Fold(sc, todo, st).Ok? <==> AllRead(sc, todo)
    ensures AllRead(sc, todo) ==> Behind(sc, done + todo, Fold(sc, todo, st).value)
    decreases |todo|
  {
    if todo == [] {
      assert done + todo == done;
    } else {
      var f, rest := todo[0], todo[1..];
      assert OutsideGroup([f]) && OutsideGroup(rest);
      AllReadSplits(sc, f, rest, todo);
      if HeaderReads(sc, f) {
        HeaderTakes(sc, done, st, f);
        assert (done + [f]) + rest == done + todo;
        HeaderFolds(sc, done + [f], rest, Step(sc, st, f).value);
      } else {
        HeaderRefuses(sc, st, f);
      }
    }
  }

  lemma AllReadSplits(sc: Scales, f: Field, rest: seq<Field>, fs: seq<Field>)
    requires fs != [] && f == fs[0] && rest == fs[1..]
    ensures AllRead(sc, fs) <==> HeaderReads(sc, f) && AllRead(sc, rest)
  {
    if HeaderReads(sc, f) && AllRead(sc, rest) {
      forall i | 0 <= i < |fs| ensures HeaderReads(sc, fs[i]) {
        assert i > 0 ==> fs[i] == rest[i - 1];
      }
    }
    if AllRead(sc, fs) {
      forall i | 0 <= i < |rest| ensures HeaderReads(sc, rest[i]) {
        assert rest[i] == fs[i + 1];
      }
    }
  }

  lemma FromTheStart(sc: Scales, header: seq<Field>)
    requires OutsideGroup(header)
    ensures Fold(sc, header, START).Ok? <==> AllRead(sc, header)
    ensures AllRead(sc, header) ==> Behind(sc, header, Fold(sc, header, START).value)
  {
    BehindNothing(sc);
    assert [] + header == header;
    HeaderFolds(sc, [], header, START);
  }

  lemma FaultFolds(sc: Scales, header: seq<Field>, f: Field, rest: seq<Field>)
    requires OutsideGroup(header) && AllRead(sc, header) && OutsideGroup([f]) && !HeaderReads(sc, f)
    ensures Fold(sc, header + ([f] + rest), START) == Err(HeaderFault(sc, f))
  {
    FromTheStart(sc, header);
    FoldBoth(sc, header, [f] + rest, START);
    HeaderRefuses(sc, Fold(sc, header, START).value, f);
  }

  /** A header field that does not read is reported, whatever follows it. */
  lemma HeaderFaultIsReported(sc: Scales, header: seq<Field>, f: Field, rest: seq<Field>)
    requires OutsideGroup(header) && AllRead(sc, header) && OutsideGroup([f]) && !HeaderReads(sc, f)
    requires AllWritable(header + ([f] + rest))
    ensures ParseBody(sc, RenderFields(header + ([f] + rest))) == Err(HeaderFault(sc, f))
  {
    FieldsRoundTrip(header + ([f] + rest));
    FaultFolds(sc, header, f, rest);
  }

  // ------------------------------------------------------------------------------------------------
  // The entries
  // ------------------------------------------------------------------------------------------------

  /** Entries on one side among the first `n`. */
  function Earlier(es: seq<Entry>, n: nat, side: byte): nat
    requires n <= |es|
  {
    if n == 0 then 0 else Earlier(es, n - 1, side) + if es[n - 1].entryType == side then 1 else 0
  }

  /** The entry as it is handed out: its own level, or the number of bids, or of offers, before it. */
  function Leveled(es: seq<Entry>, i: nat): Entry
    requires i < |es|
  {
    if es[i].explicitLevel then es[i]
    else es[i].(level := if es[i].entryType in {0x30, 0x31} then Earlier(es, i, es[i].entryType) else 0)
  }

  /** The first entry without a type. */
  function FirstUntyped(es: seq<Entry>): (i: nat)
    ensures i <= |es| && (forall j :: 0 <= j < i ==> es[j].entryType != 0) && (i < |es| ==> es[i].entryType == 0)
  {
    if es == [] || es[0].entryType == 0 then 0 else 1 + FirstUntyped(es[1..])
  }

  /** The first `n` entries are pushed. */
  predicate Pushed(st: State, es: seq<Entry>, n: nat)
    requires n <= |es|
  {
    && |st.msg.entries| == n && (forall i :: 0 <= i < n ==> st.msg.entries[i] == Leveled(es, i))
    && st.bidSeen == Earlier(es, n, 0x30) && st.askSeen == Earlier(es, n, 0x31)
    && st.bidSeen <= n && st.askSeen <= n && st.cur.None?
  }

  /** Only the entries and the two counts differ. */
  predicate SameBut(a: State, b: State) {
    b == a.(msg := a.msg.(entries := b.msg.entries), bidSeen := b.bidSeen, askSeen := b.askSeen)
  }

  lemma PushesOne(st: State, es: seq<Entry>, n: nat)
    requires n < |es| && Pushed(st, es, n) && es[n].entryType != 0 && n < 32
    ensures PushEntry(st, es[n]).Ok? && Pushed(PushEntry(st, es[n]).value, es, n + 1)
    ensures SameBut(st, PushEntry(st, es[n]).value)
  {
  }

  /** The entry with no type, the thirty-third one, or the end decides. */
  predicate PushAnswer(st: State, es: seq<Entry>, r: Result<State, MdError>) {
    var k := FirstUntyped(es);
    if k < |es| && k <= 32 then r == Err(MissingTag(269))
    else if |es| > 32 then r == Err(TooManyEntries(if st.msg.declared > 33 then st.msg.declared else 33, 32))
    else r.Ok? && Pushed(r.value, es, |es|) && SameBut(st, r.value)
  }

  lemma {:induction false} PushAllIs(st: State, es: seq<Entry>, n: nat)
    requires n <= |es| && Pushed(st, es, n) && n <= 32 && n <= FirstUntyped(es)
    ensures PushAnswer(st, es, PushAll(st, es[n..]))
    decreases |es| - n
  {
    if n < |es| {
      assert es[n..][1..] == es[n + 1..];
      if n < 32 && es[n].entryType != 0 {
        PushesOne(st, es, n);
        PushAllIs(PushEntry(st, es[n]).value, es, n + 1);
      }
    }
  }

  // ------------------------------------------------------------------------------------------------
  // The whole message
  // ------------------------------------------------------------------------------------------------

  function KindSaid(header: seq<Field>): Kind {
    match ValueOf(header, 35)
    case Some(v) => if v == [0x57] then Snapshot else Incremental
    case None => Unset
  }

  /** A message's fields: a header that reads, and the encoded entries. */
  predicate Encoded(sc: Scales, header: seq<Field>, ws: seq<seq<Field>>, es: seq<Entry>) {
    && OutsideGroup(header) && AllRead(sc, header) && AllEncode(sc, KindSaid(header), ws, es)
    && (ws != [] ==> ws[0][0].tag == OpeningTag(KindSaid(header)))
  }

  function NumberOr0(v: Option<seq<byte>>): nat {
    if v.Some? && AllDigits(v.value) then DigitsValue(v.value) else 0
  }

  /** The entries in order, each at its own level or at the number of earlier entries on its side, in a message
    * that has what the header says; or the first reason there is not to hand it out. */
  predicate Answers(sc: Scales, header: seq<Field>, es: seq<Entry>, r: Result<Message, MdError>) {
    var declared, k := NumberOr0(ValueOf(header, 268)), FirstUntyped(es);
    if k < |es| && k <= 32 then r == Err(MissingTag(269))
    else if |es| > 32 then r == Err(TooManyEntries(if declared > 33 then declared else 33, 32))
    else if ValueOf(header, 35).None? then r == Err(MissingTag(35))
    else if ValueOf(header, 34).None? then r == Err(MissingTag(34))
    else if declared != |es| then r == Err(EntryCount(declared, |es|))
    else
      && r.Ok? && HeaderSays(sc, header, r.value) && |r.value.entries| == |es|
      && forall i :: 0 <= i < |es| ==> r.value.entries[i] == Leveled(es, i)
  }

  /** The state before the last flush decides the outcome. */
  function Outcome(r: Result<State, MdError>): Result<Message, MdError> {
    if r.Err? then Err(r.error) else Finish(r.value)
  }

  lemma OutcomeOfFlushed(r: Result<State, MdError>)
    ensures Flushed(r).Err? ==> Outcome(r) == Err(Flushed(r).error)
    ensures Flushed(r).Ok? && Flushed(r).value.cur.None? ==> Outcome(r) == Finish(Flushed(r).value)
  {
  }

  lemma FoldsEncoded(sc: Scales, header: seq<Field>, ws: seq<seq<Field>>, es: seq<Entry>) returns (h: State)
    requires Encoded(sc, header, ws, es)
    ensures Behind(sc, header, h) && Flushed(Fold(sc, header + Concat(ws), START)) == PushAll(h, es)
  {
    FromTheStart(sc, header);
    h := Fold(sc, header, START).value;
    FoldBoth(sc, header, Concat(ws), START);
    PushesAll(sc, h, ws, es);
  }

  /** Behind the header and the entries, the last checks. */
  lemma Concludes(sc: Scales, header: seq<Field>, es: seq<Entry>, h: State, pushed: Result<State, MdError>,
                  r: Result<Message, MdError>)
    requires Behind(sc, header, h) && PushAnswer(h, es, pushed)
    requires r == if pushed.Err? then Err(pushed.error) else Finish(pushed.value)
    ensures Answers(sc, header, es, r)
  {
  }

  lemma EntriesIff(sc: Scales, header: seq<Field>, ws: seq<seq<Field>>, es: seq<Entry>)
    requires Encoded(sc, header, ws, es)
    ensures Answers(sc, header, es, Outcome(Fold(sc, header + Concat(ws), START)))
  {
    var h := FoldsEncoded(sc, header, ws, es);
    assert es[0..] == es;
    PushAllIs(h, es, 0);
    OutcomeOfFlushed(Fold(sc, header + Concat(ws), START));
    Concludes(sc, header, es, h, PushAll(h, es), Outcome(Fold(sc, header + Concat(ws), START)));
  }

  lemma BodyIsFields(sc: Scales, fs: seq<Field>)
    requires AllWritable(fs)
    ensures ParseBody(sc, RenderFields(fs)) == Outcome(Fold(sc, fs, START))
  {
    FieldsRoundTrip(fs);
  }

  /** Parsing the bytes of a body. */
  lemma BodyIff(sc: Scales, header: seq<Field>, ws: seq<seq<Field>>, es: seq<Entry>)
    requires Encoded(sc, header, ws, es) && AllWritable(header + Concat(ws))
    ensures Answers(sc, header, es, ParseBody(sc, RenderFields(header + Concat(ws))))
  {
    BodyIsFields(sc, header + Concat(ws));
    EntriesIff(sc, header, ws, es);
  }

  /** Behind whole header fields a broken one is reported as such. */
  lemma BrokenIsMalformed(sc: Scales, header: seq<Field>, rest: seq<byte>)
    requires OutsideGroup(header) && AllRead(sc, header) && AllWritable(header) && Broken(rest)
    ensures ParseBody(sc, RenderFields(header) + rest) == Err(MalformedField)
  {
    StopsAtBroken(header, rest);
    FromTheStart(sc, header);
  }

  // ------------------------------------------------------------------------------------------------
  // A group field that does not read
  // ------------------------------------------------------------------------------------------------

  predicate GroupReads(sc: Scales, f: Field) {
    && (f.tag == 269 ==> |f.value| == 1)
    && (f.tag == 279 ==> exists a :: f.value == [CodeOf(a)])
    && (f.tag == 270 ==> sc.price(f.value).Ok?) && (f.tag == 271 ==> sc.size(f.value).Ok?)
    && (f.tag == 272 ==> sc.date(f.value).Ok?) && (f.tag == 273 ==> sc.time(f.value).Ok?)
    && (f.tag == 346 || f.tag == 1023 ==> IsNumber(f.value, 0x1_0000_0000))
  }

  /** What is reported of it: the reader's own error, a code that is none of the six, or a bad value. */
  function GroupFault(sc: Scales, f: Field): MdError
    requires !GroupReads(sc, f)
  {
    if f.tag == 270 then sc.price(f.value).error
    else if f.tag == 271 then sc.size(f.value).error
    else if f.tag == 272 then sc.date(f.value).error
    else if f.tag == 273 then sc.time(f.value).error
    else if f.tag == 279 && |f.value| == 1 then UnknownUpdateAction(f.value[0])
    else BadValue(f.tag)
  }

  lemma CodesAreSix(b: byte)
    ensures (exists a :: [b] == [CodeOf(a)]) <==> 0x30 <= b <= 0x35
  {
    if 0x30 <= b <= 0x35 {
      var a := if b == 0x30 then New else if b == 0x31 then Change else if b == 0x32 then Delete
               else if b == 0x33 then DeleteThru else if b == 0x34 then DeleteFrom else Overlay;
      assert [b] == [CodeOf(a)];
    }
  }

  lemma SetsNothing(sc: Scales, e: Entry, f: Field)
    requires !GroupReads(sc, f)
    ensures IsGroupTag(f.tag) && SetField(sc, e, f) == Err(GroupFault(sc, f))
  {
    if f.tag == 279 && |f.value| == 1 {
      CodesAreSix(f.value[0]);
      assert f.value == [f.value[0]];
    }
  }

  /** Once an entry is open there always is one. */
  lemma StaysOpen(sc: Scales, st: State, f: Field)
    requires st.cur.Some? && Step(sc, st, f).Ok?
    ensures Step(sc, st, f).value.cur.Some?
  {
  }

  lemma {:induction false} LeftOpen(sc: Scales, fs: seq<Field>, st: State)
    requires st.cur.Some? && Fold(sc, fs, st).Ok?
    ensures Fold(sc, fs, st).value.cur.Some?
    decreases |fs|
  {
    if fs != [] {
      StaysOpen(sc, st, fs[0]);
      LeftOpen(sc, fs[1..], Step(sc, st, fs[0]).value);
    }
  }

  lemma StopsHere(sc: Scales, st: State, f: Field)
    requires st.cur.Some? && Flush(st).Ok? && !GroupReads(sc, f)
    ensures Step(sc, st, f) == Err(GroupFault(sc, f))
  {
    SetsNothing(sc, st.cur.value, f);
    SetsNothing(sc, EMPTY_ENTRY, f);
  }

  /** Behind whole entries: it is reported, whatever follows it. */
  lemma GroupFaultIsReported(
    sc: Scales, header: seq<Field>, ws: seq<seq<Field>>, es: seq<Entry>, f: Field, rest: seq<Field>)
    requires Encoded(sc, header, ws, es) && 0 < |es| <= 32 && FirstUntyped(es) == |es| && !GroupReads(sc, f)
    ensures Fold(sc, header + Concat(ws) + ([f] + rest), START) == Err(GroupFault(sc, f))
  {
    var h := FoldsEncoded(sc, header, ws, es);
    assert es[0..] == es;
    PushAllIs(h, es, 0);
    FoldBoth(sc, header + Concat(ws), [f] + rest, START);
    var st := Fold(sc, header + Concat(ws), START).value;
    EntryLeftOpen(sc, header, ws, es, st);
    StopsHere(sc, st, f);
  }

  lemma EntryLeftOpen(sc: Scales, header: seq<Field>, ws: seq<seq<Field>>, es: seq<Entry>, st: State)
    requires Encoded(sc, header, ws, es) && ws != [] && Fold(sc, header + Concat(ws), START) == Ok(st)
    ensures st.cur.Some?
  {
    FromTheStart(sc, header);
    var h := Fold(sc, header, START).value;
    FoldBoth(sc, header, Concat(ws), START);
    FoldBoth(sc, ws[0], Concat(ws[1..]), h);
    OpensEntry(sc, h, ws[0], es[0]);
    LeftOpen(sc, Concat(ws[1..]), h.(cur := Some(es[0])));
  }

  // ------------------------------------------------------------------------------------------------
  // A group that does not begin with its delimiter
  // ------------------------------------------------------------------------------------------------

  predicate Blames<T>(r: Result<T, MdError>) {
    r.Err? && r.error.GroupTagOutsideEntry?
  }

  /** The readers of values know nothing of groups. */
  ghost predicate ReadsValuesOnly(sc: Scales) {
    forall value ::
      !Blames(sc.price(value)) && !Blames(sc.size(value)) && !Blames(sc.date(value)) && !Blames(sc.time(value)) &&
      !Blames(sc.stamp(value))
  }

  lemma NewScalesReadValues(priceDecimals: nat, quantityDecimals: nat)
    ensures ReadsValuesOnly(NewScales(priceDecimals, quantityDecimals))
  {
  }

  /** Where the first field of the group stands, or the end. */
  function FirstGroup(fs: seq<Field>): (i: nat)
    ensures i <= |fs| && OutsideGroup(fs[..i]) && (i < |fs| ==> IsGroupTag(fs[i].tag))
  {
    if fs == [] || IsGroupTag(fs[0].tag) then 0
    else
      var i := 1 + FirstGroup(fs[1..]);
      assert forall j :: 0 < j < i ==> fs[j] == fs[1..][j - 1] && fs[j] == fs[1..][..i - 1][j - 1];
      i
  }

  /** Once an entry is open there always is one. */
  lemma OpenStep(sc: Scales, st: State, f: Field)
    requires ReadsValuesOnly(sc) && st.cur.Some?
    ensures !Blames(Step(sc, st, f)) && (Step(sc, st, f).Ok? ==> Step(sc, st, f).value.cur.Some?)
  {
    assert !Blames(sc.price(f.value)) && !Blames(sc.stamp(f.value));
  }

  lemma {:induction false} OpenFold(sc: Scales, fs: seq<Field>, st: State)
    requires ReadsValuesOnly(sc) && st.cur.Some?
    ensures !Blames(Fold(sc, fs, st))
    decreases |fs|
  {
    if fs != [] {
      OpenStep(sc, st, fs[0]);
      if Step(sc, st, fs[0]).Ok? {
        OpenFold(sc, fs[1..], Step(sc, st, fs[0]).value);
      }
    }
  }

  /** The header opens no entry. */
  lemma {:induction false} HeaderBlamesNone(sc: Scales, fs: seq<Field>, st: State)
    requires ReadsValuesOnly(sc) && st.cur.None? && OutsideGroup(fs)
    ensures !Blames(Fold(sc, fs, st))
    decreases |fs|
  {
    if fs != [] {
      assert OutsideGroup([fs[0]]) && OutsideGroup(fs[1..]);
      NotInGroup(fs[0]);
      HeaderOne(sc, fs[0], st);
      if Step(sc, st, fs[0]).Ok? {
        HeaderBlamesNone(sc, fs[1..], Step(sc, st, fs[0]).value);
      }
    }
  }

  lemma HeaderOne(sc: Scales, f: Field, st: State)
    requires ReadsValuesOnly(sc) && st.cur.None? && !IsGroupTag(f.tag)
    ensures !Blames(Step(sc, st, f)) && (Step(sc, st, f).Ok? ==> Step(sc, st, f).value.cur.None?)
  {
    assert !Blames(sc.stamp(f.value));
  }

  /** The first field of the group opens the first entry exactly when it is the delimiter. */
  lemma FirstStep(sc: Scales, st: State, f: Field)
    requires ReadsValuesOnly(sc) && st.cur.None? && IsGroupTag(f.tag)
    ensures f.tag != Delimiter(st.msg.kind) ==> Step(sc, st, f) == Err(GroupTagOutsideEntry(f.tag))
    ensures f.tag == Delimiter(st.msg.kind) ==>
              !Blames(Step(sc, st, f)) && (Step(sc, st, f).Ok? ==> Step(sc, st, f).value.cur.Some?)
  {
    assert !Blames(sc.price(f.value));
  }

  /** The group's first field is one the delimiter should have come before. */
  predicate BeginsOutside(sc: Scales, fs: seq<Field>) {
    var i := FirstGroup(fs);
    i < |fs| && AllRead(sc, fs[..i]) && fs[i].tag != OpeningTag(KindSaid(fs[..i]))
  }

  /** Any fields at all: the parse stops with a group tag outside an entry exactly when the group's first field
    * is not the delimiter of the message's kind, and it is that tag. A venue that orders the group so is
    * refused, however it goes on. */
  lemma OutsideEntryIff(sc: Scales, fs: seq<Field>)
    requires ReadsValuesOnly(sc)
    ensures Blames(Fold(sc, fs, START)) <==> BeginsOutside(sc, fs)
    ensures BeginsOutside(sc, fs) ==> Fold(sc, fs, START) == Err(GroupTagOutsideEntry(fs[FirstGroup(fs)].tag))
  {
    var i := FirstGroup(fs);
    var header := fs[..i];
    assert fs == header + fs[i..];
    FoldBoth(sc, header, fs[i..], START);
    HeaderBlamesNone(sc, header, START);
    FromTheStart(sc, header);
    if i < |fs| && AllRead(sc, header) {
      var h := Fold(sc, header, START).value;
      assert fs[i..][0] == fs[i];
      FirstStep(sc, h, fs[i]);
      if Step(sc, h, fs[i]).Ok? {
        OpenFold(sc, fs[i..][1..], Step(sc, h, fs[i]).value);
      }
    }
  }

  lemma OutcomeBlames(r: Result<State, MdError>)
    ensures Blames(Outcome(r)) <==> Blames(r)
    ensures Blames(r) ==> Outcome(r) == Err(r.error)
  {
  }

  /** The same of the body such fields are written in. */
  lemma OutsideBodyIff(sc: Scales, fs: seq<Field>)
    requires ReadsValuesOnly(sc) && AllWritable(fs)
    ensures Blames(ParseBody(sc, RenderFields(fs))) <==> BeginsOutside(sc, fs)
    ensures BeginsOutside(sc, fs) ==>
              ParseBody(sc, RenderFields(fs)) == Err(GroupTagOutsideEntry(fs[FirstGroup(fs)].tag))
  {
    BodyIsFields(sc, fs);
    OutsideEntryIff(sc, fs);
    OutcomeBlames(Fold(sc, fs, START));
  }

  /** At the scales of a venue a price is read exactly when it is well formed, whole at the scale and within
    * the range, and then to its last digit; a size must not be below zero besides; dates and times are read as
    * what they name. */
  lemma ScalesReadExactlyIff(priceDecimals: nat, quantityDecimals: nat, value: seq<byte>, v: int)
    ensures var sc := NewScales(priceDecimals, quantityDecimals);
            && (sc.price(value) == Ok(v) <==> NamesUnits(value, priceDecimals, v))
            && (sc.size(value) == Ok(v) <==> NamesUnits(value, quantityDecimals, v) && v >= 0)
            && (sc.date(value) == Ok(v) <==> v >= 0 && UtcTime.NamesDate(value, v))
            && (sc.time(value) == Ok(v) <==> v >= 0 && UtcTime.NamesTime(value, v))
            && (sc.stamp(value) == Ok(v) <==> v >= 0 && UtcTime.NamesInstant(value, v))
  {
    FixDecimal.ReadsExactlyIff(value, priceDecimals, v);
    FixDecimal.ReadsExactlyIff(value, quantityDecimals, v);
    if v >= 0 {
      UtcTime.DateIff(value, v);
      UtcTime.TimeIff(value, v);
      UtcTime.StampIff(value, v);
    }
  }

  predicate Finer(value: seq<byte>, decimals: nat) {
    FixDecimal.ScaledDecimal(value, decimals) == Err(FixDecimal.Precision)
  }

  /** What is not read is reported under its own tag, a price or a size finer than the scale as such. */
  lemma ScalesReport(priceDecimals: nat, quantityDecimals: nat, value: seq<byte>)
    ensures var sc := NewScales(priceDecimals, quantityDecimals);
            && (sc.price(value).Err? ==>
                  sc.price(value).error == if Finer(value, priceDecimals) then Precision(270) else BadValue(270))
            && (sc.size(value).Err? ==>
                  sc.size(value).error == if Finer(value, quantityDecimals) then Precision(271) else BadValue(271))
            && (sc.date(value).Err? ==> sc.date(value).error == BadValue(272))
            && (sc.time(value).Err? ==> sc.time(value).error == BadValue(273))
            && (sc.stamp(value).Err? ==> sc.stamp(value).error == BadValue(52))
  {
  }

  /** The text is a number, and `v` units of the scale are that number and fit. */
  predicate NamesUnits(value: seq<byte>, decimals: nat, v: int) {
    var (negative, digits) := FixDecimal.Unsigned(value);
    && FixDecimal.WellFormed(value) && -0x7FFF_FFFF_FFFF_FFFF <= v <= 0x7FFF_FFFF_FFFF_FFFF
    && Denotes(SplitAtPoint(digits), if negative then 0 - v else v, decimals)
  }
}

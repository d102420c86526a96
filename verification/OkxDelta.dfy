/** A diff decodes to the same record, or to none, in every order of its members. */
module OkxDelta {
  import opened Wrappers
  import opened Words
  import opened Bytes
  import opened JsonScan
  import opened JsonGrammar
  import opened Placement
  import opened CryptoLevels
  import opened LevelGrammar
  import opened OkxBook

  // ------------------------------------------------------------------------------------------------
  // What a diff's members say, in no order
  // ------------------------------------------------------------------------------------------------

  function Lookup(ms: Members, key: seq<byte>): Option<Value> {
    if ms.NoMembers? then None else if ms.key == key then Some(ms.value) else Lookup(ms.rest, key)
  }

  predicate Distinct(ms: Members) {
    ms.Member? ==> Lookup(ms.rest, ms.key).None? && Distinct(ms.rest)
  }

  predicate IsSideKey(key: seq<byte>) {
    key == BIDS || key == ASKS
  }

  /** Sides are arrays of levels, and the other fields the decoder reads are scalars. */
  predicate Fits(key: seq<byte>, v: Value) {
    && (IsSideKey(key) ==> v.Array? && AllLevels(v.items))
    && (IsScalarKey(key) ==> Scalar(v))
  }

  predicate AllFit(ms: Members) {
    ms.Member? ==> Fits(ms.key, ms.value) && AllFit(ms.rest)
  }

  /** A side that is no array: `null`, a number, a string, an object. */
  predicate NoArray(key: seq<byte>, v: Value) {
    IsSideKey(key) && !v.Array?
  }

  const EMPTY_SIDE: Value := Array([], NoItems)

  /** Every member fits, at least up to the first side that is no array. */
  predicate Legible(ms: Members) {
    ms.Member? ==> NoArray(ms.key, ms.value) || (Fits(ms.key, ms.value) && Legible(ms.rest))
  }

  /** The members the decoder gets to see: at a side that is no array it reads an empty one, and gives up the
    * rest of the object. */
  function Heard(ms: Members): (heard: Members)
    ensures Legible(ms) ==> AllFit(heard)
    ensures AllFit(ms) ==> heard == ms && Legible(ms)
  {
    if ms.NoMembers? then ms
    else if NoArray(ms.key, ms.value) then ms.(value := EMPTY_SIDE, rest := NoMembers)
    else ms.(rest := Heard(ms.rest))
  }

  predicate IsDiff(ms: Members) {
    WellFormedMembers(ms) && NoKeyEmpty(ms) && Distinct(ms) && Legible(ms)
  }

  // ------------------------------------------------------------------------------------------------
  // The walk, member by member
  // ------------------------------------------------------------------------------------------------

  function SideOn(inst: Instrument, key: seq<byte>, items: Items, p: Partial): Outcome
    requires AllLevels(items)
  {
    match ReadItems(inst, items, [], Room(p))
    case Err(e) => Err(e)
    case Ok(levels) => Ok(WithSide(p, levels, key == BIDS))
  }

  function StepOn(inst: Instrument, key: seq<byte>, v: Value, p: Partial): Outcome
    requires Fits(key, v)
  {
    if IsSideKey(key) then SideOn(inst, key, v.items, p)
    else if IsScalarKey(key) then WithScalar(inst, key, ScalarText(v), p)
    else Ok(p)
  }

  function WalkOn(inst: Instrument, ms: Members, p: Partial): Outcome
    requires AllFit(ms)
  {
    if ms.NoMembers? then Ok(p)
    else
      match StepOn(inst, ms.key, ms.value, p)
      case Err(e) => Err(e)
      case Ok(q) => WalkOn(inst, ms.rest, q)
  }

  /** At `at` the decoder takes the member's value as the grammar has it, whatever it has read before. */
  ghost predicate StepStands(inst: Instrument, data: seq<byte>, at: nat, key: seq<byte>, v: Value, end: nat)
    requires Fits(key, v)
  {
    at <= |data| &&
    forall p {:trigger Step(inst, data, at, key, p)} ::
      Step(inst, data, at, key, p) == StepOn(inst, key, v, p) &&
      (Step(inst, data, at, key, p).Ok? ==> StepEnd(inst, data, at, key, p) == end)
  }

  lemma SideStands(inst: Instrument, data: seq<byte>, at: nat, key: seq<byte>, v: Value)
    requires IsSideKey(key) && Fits(key, v) && ValueAt(data, at, v) && WellFormed(v)
    ensures StepStands(inst, data, at, key, v, at + Length(v))
  {
    SideOfArray(inst, data, at, v);
    SideSteps(inst, data, at, key, v, at + Length(v));
  }

  lemma SideSteps(inst: Instrument, data: seq<byte>, at: nat, key: seq<byte>, v: Value, end: nat)
    requires IsSideKey(key) && Fits(key, v) && SideReads(inst, data, at, v.items, end)
    ensures StepStands(inst, data, at, key, v, end)
  {
    forall p ensures Step(inst, data, at, key, p) == StepOn(inst, key, v, p) &&
                     (Step(inst, data, at, key, p).Ok? ==> StepEnd(inst, data, at, key, p) == end)
    {
      assert DeltaSide(inst, data, at, Room(p)) == Past(ReadItems(inst, v.items, [], Room(p)), end);
    }
  }

  lemma ScalarStands(inst: Instrument, data: seq<byte>, at: nat, key: seq<byte>, v: Value)
    requires IsScalarKey(key) && Fits(key, v) && ValueAt(data, at, v) && WellFormed(v) &&
               Delimited(data, at + Length(v))
    ensures StepStands(inst, data, at, key, v, at + Length(v))
  {
    FirstByte(data, at, v);
    ScalarReads(data, at, v);
  }

  lemma OtherStands(inst: Instrument, data: seq<byte>, at: nat, key: seq<byte>, v: Value)
    requires !IsSideKey(key) && !IsScalarKey(key) && ValueAt(data, at, v) && WellFormed(v) &&
               Delimited(data, at + Length(v))
    ensures StepStands(inst, data, at, key, v, at + Length(v))
  {
    SkipsValue(data, at, v);
  }

  lemma NoArrayStands(inst: Instrument, data: seq<byte>, at: nat, key: seq<byte>, v: Value)
    requires NoArray(key, v) && ValueAt(data, at, v) && WellFormed(v)
    ensures StepStands(inst, data, at, key, EMPTY_SIDE, |data|)
  {
    FirstByte(data, at, v);
    assert data[at] != OPEN_BRACKET;
    forall room ensures DeltaSide(inst, data, at, room) == Past(ReadItems(inst, NoItems, [], room), |data|) {
    }
  }

  /** From `pos` the decoder walks these members, whatever it has read before. */
  ghost predicate WalkReads(inst: Instrument, data: seq<byte>, pos: nat, ms: Members)
    requires AllFit(ms)
  {
    pos <= |data| &&
    forall p {:trigger DeltaWalk(inst, data, QuoteFrom(data, pos), p)} ::
      DeltaWalk(inst, data, QuoteFrom(data, pos), p) == WalkOn(inst, ms, p)
  }

  lemma WalkStepOn(
    inst: Instrument, data: seq<byte>, pos: nat, open: nat, value: nat, post: nat, rest: nat, ms: Members)
    requires ms.Member? && AllFit(ms) && ms.key != [] && pos <= |data| && post <= |data| && rest <= |data|
    requires QuoteFrom(data, pos) == open && BytesOf(data, open) == ms.key && ValueOf(data, open) == value
    requires StepStands(inst, data, value, ms.key, ms.value, post)
    requires QuoteFrom(data, post) == QuoteFrom(data, rest) && WalkReads(inst, data, rest, ms.rest)
    ensures WalkReads(inst, data, pos, ms)
  {
    forall p ensures DeltaWalk(inst, data, QuoteFrom(data, pos), p) == WalkOn(inst, ms, p) {
      var step := Step(inst, data, value, ms.key, p);
      assert step == StepOn(inst, ms.key, ms.value, p);
      if step.Ok? {
        assert DeltaWalk(inst, data, open, p) == DeltaWalk(inst, data, QuoteFrom(data, rest), step.value);
      }
    }
  }

  lemma ValueStands(inst: Instrument, data: seq<byte>, value: nat, key: seq<byte>, v: Value)
    requires Fits(key, v) && ValueAt(data, value, v) && WellFormed(v) && Delimited(data, value + Length(v))
    ensures StepStands(inst, data, value, key, v, value + Length(v))
  {
    if IsSideKey(key) {
      SideStands(inst, data, value, key, v);
    } else if IsScalarKey(key) {
      ScalarStands(inst, data, value, key, v);
    } else {
      OtherStands(inst, data, value, key, v);
    }
  }

  lemma MemberStands(
    inst: Instrument, data: seq<byte>, pos: nat, ms: Members, first: bool, open: nat, value: nat, post: nat, rest: nat)
    requires ms.Member? && MembersAt(data, pos, ms, first) && WellFormedMembers(ms) && Fits(ms.key, ms.value)
    requires pos + MembersLength(ms, first) == |data|
    requires open == pos + SeparatorLength(first) + |ms.pre| && value == pos + ValueOffset(ms, first)
    requires post == value + Length(ms.value) && rest == post + |ms.post|
    ensures pos <= |data| && post <= |data| && rest <= |data| && MembersAt(data, rest, ms.rest, false)
    ensures rest + MembersLength(ms.rest, false) == |data|
    ensures StepStands(inst, data, value, ms.key, ms.value, post) && QuoteFrom(data, post) == QuoteFrom(data, rest)
  {
    AfterValue(data, post, ms.post, ms.rest);
    ValueStands(inst, data, value, ms.key, ms.value);
    WsHasNoQuote(data, post, ms.post);
  }

  /** The walk ends at a side that is no array. */
  lemma WalkStops(inst: Instrument, data: seq<byte>, pos: nat, ms: Members, first: bool, open: nat, value: nat)
    requires ms.Member? && MembersAt(data, pos, ms, first) && WellFormedMembers(ms) && ms.key != []
    requires NoArray(ms.key, ms.value) && pos + MembersLength(ms, first) == |data|
    requires open == pos + SeparatorLength(first) + |ms.pre| && value == pos + ValueOffset(ms, first)
    ensures WalkReads(inst, data, pos, Heard(ms))
  {
    assert pos <= |data|;
    FindsMember(data, pos, ms, first, open, value);
    NoArrayStands(inst, data, value, ms.key, ms.value);
    WalkStepOn(inst, data, pos, open, value, |data|, |data|, Heard(ms));
  }

  lemma {:induction false} WalksMembers(inst: Instrument, data: seq<byte>, pos: nat, ms: Members, first: bool)
    requires MembersAt(data, pos, ms, first) && WellFormedMembers(ms) && NoKeyEmpty(ms) && Legible(ms)
    requires pos + MembersLength(ms, first) == |data|
    ensures WalkReads(inst, data, pos, Heard(ms))
    decreases ms
  {
    if ms.Member? {
      var open, value := pos + SeparatorLength(first) + |ms.pre|, pos + ValueOffset(ms, first);
      if NoArray(ms.key, ms.value) {
        WalkStops(inst, data, pos, ms, first, open, value);
      } else {
        var post := value + Length(ms.value);
        var rest := post + |ms.post|;
        MemberStands(inst, data, pos, ms, first, open, value, post, rest);
        FindsMember(data, pos, ms, first, open, value);
        WalksMembers(inst, data, rest, ms.rest, false);
        WalkStepOn(inst, data, pos, open, value, post, rest, Heard(ms));
      }
    }
  }

  /** Decoding the bytes of an object is walking the members the decoder gets to see, keys repeated or not. */
  lemma DecodesMembers(inst: Instrument, v: Value, recvNs: nat)
    requires v.Object? && WellFormed(v) && NoKeyEmpty(v.members) && Legible(v.members)
    ensures DecodeDelta(inst, Inner(v), recvNs) == Finished(inst, WalkOn(inst, Heard(v.members), NOTHING), recvNs)
  {
    var inner := Inner(v);
    AtSplit(inner, 0, v.lead, RenderMembers(v.members, true));
    MembersStand(inner, |v.lead|, v.members, true);
    WsHasNoQuote(inner, 0, v.lead);
    WalksMembers(inst, inner, |v.lead|, v.members, true);
    assert DeltaWalk(inst, inner, QuoteFrom(inner, |v.lead|), NOTHING) == WalkOn(inst, Heard(v.members), NOTHING);
  }

  // ------------------------------------------------------------------------------------------------
  // What the walk leaves, in no order
  // ------------------------------------------------------------------------------------------------

  /** The fields of a diff, each there or not. */
  datatype Facts = Facts(bids: Option<seq<Level>>, asks: Option<seq<Level>>, seqId: Option<nat>,
    prevSeqId: Option<nat>, ts: Option<nat>)

  const NO_FACTS: Facts := Facts(None, None, None, None, None)

  function Levels(side: Option<seq<Level>>): seq<Level> {
    if side.Some? then side.value else []
  }

  function Number(n: Option<nat>): nat {
    if n.Some? then n.value else 0
  }

  /** The partial state holds exactly these facts, the asks in front when they came first. */
  predicate Agrees(p: Partial, f: Facts) {
    && p.levels == (if p.askFirst then Levels(f.asks) + Levels(f.bids) else Levels(f.bids) + Levels(f.asks))
    && p.bidCount == |Levels(f.bids)| && p.askCount == |Levels(f.asks)|
    && (p.askFirst ==> f.asks.Some?) && (f.asks.Some? && !p.askFirst ==> f.bids.Some?)
    && p.seqId == Number(f.seqId) && p.prevSeqId == Number(f.prevSeqId) && p.ts == f.ts
    && (Bids in p.have <==> f.bids.Some?) && (Asks in p.have <==> f.asks.Some?)
    && (SeqId in p.have <==> f.seqId.Some?) && (PrevSeqId in p.have <==> f.prevSeqId.Some?)
    && |p.levels| <= WIRE_MAX_DELTA_LEVELS
  }

  /** A value the decoder accepts for its key, by itself. */
  predicate Accepted(inst: Instrument, key: seq<byte>, v: Value)
    requires Fits(key, v)
  {
    && (IsSideKey(key) ==> AllRead(inst, v.items))
    && (key == INST_ID ==> ScalarText(v) == inst.symbol)
  }

  predicate AllAccepted(inst: Instrument, ms: Members)
    requires AllFit(ms)
  {
    ms.Member? ==> Accepted(inst, ms.key, ms.value) && AllAccepted(inst, ms.rest)
  }

  /** One more fact. */
  function Learn(inst: Instrument, f: Facts, key: seq<byte>, v: Value): Facts
    requires Fits(key, v) && Accepted(inst, key, v)
  {
    if key == BIDS then f.(bids := Some(LevelsOf(inst, v.items)))
    else if key == ASKS then f.(asks := Some(LevelsOf(inst, v.items)))
    else if key == SEQ_ID then f.(seqId := Some(Saturating(ScalarText(v), 0)))
    else if key == PREV_SEQ_ID then f.(prevSeqId := Some(Saturating(ScalarText(v), 0)))
    else if key == TS then f.(ts := Some(Saturating(ScalarText(v), 0)))
    else f
  }

  function LearnAll(inst: Instrument, f: Facts, ms: Members): Facts
    requires AllFit(ms) && AllAccepted(inst, ms)
    decreases ms
  {
    if ms.NoMembers? then f else LearnAll(inst, Learn(inst, f, ms.key, ms.value), ms.rest)
  }

  /** The facts do not yet hold this key. */
  predicate Unknown(f: Facts, key: seq<byte>) {
    && (key == BIDS ==> f.bids.None?) && (key == ASKS ==> f.asks.None?) && (key == SEQ_ID ==> f.seqId.None?)
    && (key == PREV_SEQ_ID ==> f.prevSeqId.None?) && (key == TS ==> f.ts.None?)
  }

  predicate AllUnknown(f: Facts, ms: Members) {
    ms.Member? ==> Unknown(f, ms.key) && AllUnknown(f, ms.rest)
  }

  function Total(f: Facts): nat {
    |Levels(f.bids)| + |Levels(f.asks)|
  }

  lemma KeysDiffer()
    ensures BIDS != ASKS && BIDS != SEQ_ID && BIDS != PREV_SEQ_ID && BIDS != TS && BIDS != INST_ID
    ensures ASKS != SEQ_ID && ASKS != PREV_SEQ_ID && ASKS != TS && ASKS != INST_ID
    ensures SEQ_ID != PREV_SEQ_ID && SEQ_ID != TS && SEQ_ID != INST_ID
    ensures PREV_SEQ_ID != TS && PREV_SEQ_ID != INST_ID && TS != INST_ID
  {
    assert |BIDS| == 4 && |ASKS| == 4 && |SEQ_ID| == 5 && |PREV_SEQ_ID| == 9 && |TS| == 2 && |INST_ID| == 6;
    assert BIDS[0] != ASKS[0];
  }

  /** A side goes behind what is there, if there is room for all of it. */
  lemma SideRoom(inst: Instrument, key: seq<byte>, items: Items, p: Partial)
    requires AllLevels(items) && |p.levels| <= WIRE_MAX_DELTA_LEVELS
    ensures SideOn(inst, key, items, p).Ok? <==>
              AllRead(inst, items) && |p.levels| + Count(items) <= WIRE_MAX_DELTA_LEVELS
    ensures SideOn(inst, key, items, p).Ok? ==>
              SideOn(inst, key, items, p) == Ok(WithSide(p, LevelsOf(inst, items), key == BIDS))
  {
    ReadItemsIff(inst, items, [], Room(p));
    if AllRead(inst, items) {
      assert [] + LevelsOf(inst, items) == LevelsOf(inst, items);
    }
  }

  lemma WithBids(p: Partial, f: Facts, side: seq<Level>)
    requires Agrees(p, f) && f.bids.None? && |p.levels| + |side| <= WIRE_MAX_DELTA_LEVELS
    ensures Agrees(WithSide(p, side, true), f.(bids := Some(side)))
  {
    assert [] + Levels(f.asks) == Levels(f.asks) && Levels(f.asks) + [] == Levels(f.asks);
    assert side + [] == side && [] + side == side;
  }

  lemma WithAsks(p: Partial, f: Facts, side: seq<Level>)
    requires Agrees(p, f) && f.asks.None? && |p.levels| + |side| <= WIRE_MAX_DELTA_LEVELS
    ensures Agrees(WithSide(p, side, false), f.(asks := Some(side)))
  {
    assert Levels(f.bids) + [] == Levels(f.bids);
    assert side + [] == side && [] + side == side;
  }

  lemma LearnsSide(inst: Instrument, key: seq<byte>, v: Value, p: Partial, f: Facts)
    requires IsSideKey(key) && Fits(key, v) && Agrees(p, f) && Unknown(f, key)
    ensures SideOn(inst, key, v.items, p).Ok? <==>
            Accepted(inst, key, v) && Total(f) + Count(v.items) <= WIRE_MAX_DELTA_LEVELS
    ensures SideOn(inst, key, v.items, p).Ok? ==> Agrees(SideOn(inst, key, v.items, p).value, Learn(inst, f, key, v))
  {
    KeysDiffer();
    SideRoom(inst, key, v.items, p);
    if SideOn(inst, key, v.items, p).Ok? {
      var side := LevelsOf(inst, v.items);
      if key == BIDS {
        WithBids(p, f, side);
      } else {
        WithAsks(p, f, side);
      }
    }
  }

  lemma LearnsScalar(inst: Instrument, key: seq<byte>, v: Value, p: Partial, f: Facts)
    requires IsScalarKey(key) && Fits(key, v) && Agrees(p, f)
    ensures WithScalar(inst, key, ScalarText(v), p).Ok? <==> Accepted(inst, key, v)
    ensures Accepted(inst, key, v) ==> Agrees(WithScalar(inst, key, ScalarText(v), p).value, Learn(inst, f, key, v))
  {
    KeysDiffer();
  }

  lemma Learns(inst: Instrument, key: seq<byte>, v: Value, p: Partial, f: Facts)
    requires Fits(key, v) && Agrees(p, f) && Unknown(f, key)
    ensures StepOn(inst, key, v, p).Ok? <==>
            Accepted(inst, key, v) && Total(Learn(inst, f, key, v)) <= WIRE_MAX_DELTA_LEVELS
    ensures StepOn(inst, key, v, p).Ok? ==> Agrees(StepOn(inst, key, v, p).value, Learn(inst, f, key, v))
  {
    KeysDiffer();
    if IsSideKey(key) {
      LearnsSide(inst, key, v, p, f);
    } else if IsScalarKey(key) {
      LearnsScalar(inst, key, v, p, f);
    }
  }

  lemma {:induction false} StillUnknown(inst: Instrument, f: Facts, key: seq<byte>, v: Value, ms: Members)
    requires Fits(key, v) && Accepted(inst, key, v) && AllUnknown(f, ms) && Lookup(ms, key).None?
    ensures AllUnknown(Learn(inst, f, key, v), ms)
    decreases ms
  {
    if ms.Member? {
      KeysDiffer();
      StillUnknown(inst, f, key, v, ms.rest);
    }
  }

  lemma {:induction false} TotalGrows(inst: Instrument, f: Facts, ms: Members)
    requires AllFit(ms) && AllAccepted(inst, ms) && AllUnknown(f, ms) && Distinct(ms)
    ensures Total(LearnAll(inst, f, ms)) >= Total(f)
    decreases ms
  {
    if ms.Member? {
      KeysDiffer();
      StillUnknown(inst, f, ms.key, ms.value, ms.rest);
      TotalGrows(inst, Learn(inst, f, ms.key, ms.value), ms.rest);
    }
  }

  /** The walk succeeds exactly when every value is accepted by itself and the two sides fit the buffer
    * together, and what it leaves is what the members say. */
  lemma {:induction false} WalkLearns(inst: Instrument, ms: Members, p: Partial, f: Facts)
    requires AllFit(ms) && Distinct(ms) && AllUnknown(f, ms) && Agrees(p, f)
    ensures WalkOn(inst, ms, p).Ok? <==>
            AllAccepted(inst, ms) && Total(LearnAll(inst, f, ms)) <= WIRE_MAX_DELTA_LEVELS
    ensures WalkOn(inst, ms, p).Ok? ==> Agrees(WalkOn(inst, ms, p).value, LearnAll(inst, f, ms))
    decreases ms
  {
    if ms.Member? {
      Learns(inst, ms.key, ms.value, p, f);
      if Accepted(inst, ms.key, ms.value) {
        var g := Learn(inst, f, ms.key, ms.value);
        StillUnknown(inst, f, ms.key, ms.value, ms.rest);
        if StepOn(inst, ms.key, ms.value, p).Ok? {
          WalkLearns(inst, ms.rest, StepOn(inst, ms.key, ms.value, p).value, g);
        } else if AllAccepted(inst, ms) {
          TotalGrows(inst, g, ms.rest);
        }
      }
    }
  }

  // ------------------------------------------------------------------------------------------------
  // Facts by key
  // ------------------------------------------------------------------------------------------------

  /** Two lists of members say the same under every key. */
  ghost predicate SameFields(a: Members, b: Members) {
    forall key :: Lookup(a, key) == Lookup(b, key)
  }

  lemma {:induction false} LookupFits(ms: Members, key: seq<byte>)
    requires AllFit(ms) && Lookup(ms, key).Some?
    ensures Fits(key, Lookup(ms, key).value)
  {
    if ms.key != key {
      LookupFits(ms.rest, key);
    }
  }

  /** What a key says, if anything, is accepted for it. */
  predicate KeyAccepted(inst: Instrument, ms: Members, key: seq<byte>) {
    Lookup(ms, key).Some? ==> Fits(key, Lookup(ms, key).value) && Accepted(inst, key, Lookup(ms, key).value)
  }

  lemma {:induction false} AcceptedByKey(inst: Instrument, ms: Members, key: seq<byte>)
    requires AllFit(ms) && AllAccepted(inst, ms)
    ensures KeyAccepted(inst, ms, key)
    decreases ms
  {
    if ms.Member? && ms.key != key {
      AcceptedByKey(inst, ms.rest, key);
    }
  }

  lemma {:induction false} AllByKey(inst: Instrument, ms: Members)
    requires AllFit(ms) && Distinct(ms) && forall key :: KeyAccepted(inst, ms, key)
    ensures AllAccepted(inst, ms)
    decreases ms
  {
    if ms.Member? {
      assert KeyAccepted(inst, ms, ms.key);
      forall key ensures KeyAccepted(inst, ms.rest, key) {
        assert KeyAccepted(inst, ms, key);
      }
      AllByKey(inst, ms.rest);
    }
  }

  lemma AcceptedAlike(inst: Instrument, a: Members, b: Members)
    requires AllFit(a) && AllFit(b) && Distinct(b) && SameFields(a, b) && AllAccepted(inst, a)
    ensures AllAccepted(inst, b)
  {
    forall key ensures KeyAccepted(inst, b, key) {
      AcceptedByKey(inst, a, key);
    }
    AllByKey(inst, b);
  }

  function SideOf(inst: Instrument, ms: Members, key: seq<byte>, known: Option<seq<Level>>): Option<seq<Level>>
    requires AllFit(ms) && IsSideKey(key)
  {
    if Lookup(ms, key).None? then known
    else
      LookupFits(ms, key);
      var items := Lookup(ms, key).value.items;
      if AllRead(inst, items) then Some(LevelsOf(inst, items)) else None
  }

  function ScalarOf(ms: Members, key: seq<byte>, known: Option<nat>): Option<nat>
    requires AllFit(ms) && IsScalarKey(key)
  {
    if Lookup(ms, key).None? then known
    else
      LookupFits(ms, key);
      Some(Saturating(ScalarText(Lookup(ms, key).value), 0))
  }

  /** What the members say, key by key. */
  function FactsOf(inst: Instrument, f: Facts, ms: Members): Facts
    requires AllFit(ms)
  {
    Facts(SideOf(inst, ms, BIDS, f.bids), SideOf(inst, ms, ASKS, f.asks),
          ScalarOf(ms, SEQ_ID, f.seqId), ScalarOf(ms, PREV_SEQ_ID, f.prevSeqId), ScalarOf(ms, TS, f.ts))
  }

  lemma {:induction false} FactsByKey(inst: Instrument, f: Facts, ms: Members)
    requires AllFit(ms) && Distinct(ms) && AllAccepted(inst, ms)
    ensures LearnAll(inst, f, ms) == FactsOf(inst, f, ms)
    decreases ms
  {
    if ms.Member? {
      KeysDiffer();
      FactsByKey(inst, Learn(inst, f, ms.key, ms.value), ms.rest);
    }
  }

  // ------------------------------------------------------------------------------------------------
  // The main result
  // ------------------------------------------------------------------------------------------------

  /** A diff all of whose fields are there, accepted, and together within the buffer. */
  ghost predicate Decodes(inst: Instrument, ms: Members)
    requires AllFit(ms)
  {
    var f := FactsOf(inst, NO_FACTS, ms);
    && AllAccepted(inst, ms) && Total(f) <= WIRE_MAX_DELTA_LEVELS
    && f.bids.Some? && f.asks.Some? && f.seqId.Some? && f.prevSeqId.Some?
  }

  /** Its record: bids, then asks. */
  function RecordFor(inst: Instrument, f: Facts, recvNs: nat): DeltaRecord {
    DeltaRecord(inst.symbol, recvNs, if f.ts.Some? then Some(MillisToNanos(f.ts.value)) else None,
                Levels(f.bids) + Levels(f.asks), |Levels(f.bids)|, |Levels(f.asks)|,
                Number(f.seqId), Number(f.seqId), Number(f.prevSeqId))
  }

  lemma RecordAgrees(inst: Instrument, p: Partial, f: Facts, recvNs: nat)
    requires Agrees(p, f)
    ensures RecordOf(inst, p, recvNs) == RecordFor(inst, f, recvNs)
    ensures Require(p.have).None? <==> f.bids.Some? && f.asks.Some? && f.seqId.Some? && f.prevSeqId.Some?
  {
    assert Rotated(p) == Levels(f.bids) + Levels(f.asks);
  }

  lemma {:induction false} NothingKnown(ms: Members)
    ensures AllUnknown(NO_FACTS, ms)
  {
    if ms.Member? {
      NothingKnown(ms.rest);
    }
  }

  // ------------------------------------------------------------------------------------------------
  // The record, field by field
  // ------------------------------------------------------------------------------------------------

  /** The keys as the venue spells them. */
  lemma KeysAreSpelled()
    ensures BIDS == Ascii("bids") && ASKS == Ascii("asks") && SEQ_ID == Ascii("seqId")
    ensures PREV_SEQ_ID == Ascii("prevSeqId") && TS == Ascii("ts") && INST_ID == Ascii("instId")
  {
  }

  /** `n` is the number a scalar's leading digits denote, or the last `u64` if that is smaller. */
  predicate Numbered(text: seq<byte>, n: nat) {
    var exact := DigitsValue(LeadingDigits(text));
    n == if exact <= 0xFFFF_FFFF_FFFF_FFFF then exact else 0xFFFF_FFFF_FFFF_FFFF
  }

  /** `ns` is the instant of a time in milliseconds, in whole seconds and nanoseconds of the second; past the
    * last nanosecond a `u64` counts it is that nanosecond. */
  predicate InstantOf(ms: nat, ns: nat) {
    if ms * 1_000_000 <= 0xFFFF_FFFF_FFFF_FFFF
    then ns / 1_000_000_000 == ms / 1000 && ns % 1_000_000_000 == ms % 1000 * 1_000_000
    else ns == 0xFFFF_FFFF_FFFF_FFFF
  }

  lemma SecondsOf(ms: nat)
    ensures ms * 1_000_000 / 1_000_000_000 == ms / 1000 && ms * 1_000_000 % 1_000_000_000 == ms % 1000 * 1_000_000
  {
    DivModUnique(ms * 1_000_000, 1_000_000_000, ms / 1000, ms % 1000 * 1_000_000);
  }

  lemma NumberIs(text: seq<byte>)
    ensures Numbered(text, Saturating(text, 0))
  {
    SaturatesAtTheLimit(text);
  }

  lemma TimeIs(text: seq<byte>)
    ensures InstantOf(DigitsValue(LeadingDigits(text)), MillisToNanos(Saturating(text, 0)))
  {
    SaturatesAtTheLimit(text);
    SecondsOf(DigitsValue(LeadingDigits(text)));
  }

  /** What a record says of the members it was decoded from. */
  ghost predicate Records(inst: Instrument, ms: Members, recvNs: nat, r: DeltaRecord)
    requires AllFit(ms)
  {
    var bids, asks := Lookup(ms, Ascii("bids")), Lookup(ms, Ascii("asks"));
    var seqId, prev, ts := Lookup(ms, Ascii("seqId")), Lookup(ms, Ascii("prevSeqId")), Lookup(ms, Ascii("ts"));
    && r.symbol == inst.symbol && r.recvNs == recvNs
    && bids.Some? && bids.value.Array? && AllLevels(bids.value.items) && AllRead(inst, bids.value.items)
    && asks.Some? && asks.value.Array? && AllLevels(asks.value.items) && AllRead(inst, asks.value.items)
    && r.levels == LevelsOf(inst, bids.value.items) + LevelsOf(inst, asks.value.items)
    && r.bidCount == Count(bids.value.items) && r.askCount == Count(asks.value.items)
    && seqId.Some? && Scalar(seqId.value) && Numbered(ScalarText(seqId.value), r.finalUpdateId)
    && r.firstUpdateId == r.finalUpdateId
    && prev.Some? && Scalar(prev.value) && Numbered(ScalarText(prev.value), r.prevFinalUpdateId)
    && (ts.None? <==> r.venueNs.None?)
    && (ts.Some? ==> Scalar(ts.value) &&
                     InstantOf(DigitsValue(LeadingDigits(ScalarText(ts.value))), r.venueNs.value))
  }

  /** Both sides read, within thirty-two levels together, both numbers are there, and the symbol, if the diff
    * names one, is the instrument's. */
  ghost predicate Complete(inst: Instrument, ms: Members)
    requires AllFit(ms)
  {
    && SidesRead(inst, ms) && Named(inst, ms) && Lookup(ms, Ascii("bids")).Some? && Lookup(ms, Ascii("asks")).Some?
    && SideCount(ms, Ascii("bids")) + SideCount(ms, Ascii("asks")) <= 32
    && Lookup(ms, Ascii("seqId")).Some? && Lookup(ms, Ascii("prevSeqId")).Some?
  }

  predicate Named(inst: Instrument, ms: Members)
    requires AllFit(ms)
  {
    var name := Lookup(ms, Ascii("instId"));
    name.Some? && Scalar(name.value) ==> ScalarText(name.value) == inst.symbol
  }

  predicate SidesRead(inst: Instrument, ms: Members)
    requires AllFit(ms)
  {
    ms.Member? ==> (IsSideKey(ms.key) ==> AllRead(inst, ms.value.items)) && SidesRead(inst, ms.rest)
  }

  function SideCount(ms: Members, key: seq<byte>): nat {
    if Lookup(ms, key).Some? && Lookup(ms, key).value.Array? then Count(Lookup(ms, key).value.items) else 0
  }

  lemma {:induction false} AcceptedIsReadAndNamed(inst: Instrument, ms: Members)
    requires AllFit(ms) && Distinct(ms)
    ensures AllAccepted(inst, ms) <==> SidesRead(inst, ms) && Named(inst, ms)
  {
    KeysAreSpelled();
    KeysDiffer();
    if ms.Member? {
      AcceptedIsReadAndNamed(inst, ms.rest);
    }
  }

  lemma TotalIsCounts(inst: Instrument, ms: Members)
    requires AllFit(ms) && AllAccepted(inst, ms)
    ensures Total(FactsOf(inst, NO_FACTS, ms)) == SideCount(ms, BIDS) + SideCount(ms, ASKS)
    ensures FactsOf(inst, NO_FACTS, ms).bids.Some? <==> Lookup(ms, BIDS).Some?
    ensures FactsOf(inst, NO_FACTS, ms).asks.Some? <==> Lookup(ms, ASKS).Some?
  {
    AcceptedByKey(inst, ms, BIDS);
    AcceptedByKey(inst, ms, ASKS);
  }

  lemma DecodesIsComplete(inst: Instrument, ms: Members)
    requires AllFit(ms) && Distinct(ms)
    ensures Decodes(inst, ms) <==> Complete(inst, ms)
  {
    KeysAreSpelled();
    AcceptedIsReadAndNamed(inst, ms);
    if AllAccepted(inst, ms) {
      TotalIsCounts(inst, ms);
    }
  }

  lemma FactsRecord(inst: Instrument, ms: Members, recvNs: nat)
    requires AllFit(ms) && Decodes(inst, ms)
    ensures Records(inst, ms, recvNs, RecordFor(inst, FactsOf(inst, NO_FACTS, ms), recvNs))
  {
    KeysAreSpelled();
    HeardFields(inst, ms);
    LookupFits(ms, SEQ_ID);
    LookupFits(ms, PREV_SEQ_ID);
    NumberIs(ScalarText(Lookup(ms, SEQ_ID).value));
    NumberIs(ScalarText(Lookup(ms, PREV_SEQ_ID).value));
    if Lookup(ms, TS).Some? {
      LookupFits(ms, TS);
      TimeIs(ScalarText(Lookup(ms, TS).value));
    }
  }

  // ------------------------------------------------------------------------------------------------
  // Decoding, both ways
  // ------------------------------------------------------------------------------------------------

  lemma {:induction false} HeardIsDistinct(ms: Members)
    requires Distinct(ms)
    ensures Distinct(Heard(ms))
    ensures forall key :: Lookup(ms, key).None? ==> Lookup(Heard(ms), key).None?
  {
    if ms.Member? {
      HeardIsDistinct(ms.rest);
    }
  }

  lemma DecodesAsWalked(inst: Instrument, v: Value, recvNs: nat)
    requires v.Object? && WellFormed(v) && IsDiff(v.members)
    ensures DecodeDelta(inst, Inner(v), recvNs).Ok? <==> Decodes(inst, Heard(v.members))
    ensures Decodes(inst, Heard(v.members)) ==>
              DecodeDelta(inst, Inner(v), recvNs) ==
              Ok(RecordFor(inst, FactsOf(inst, NO_FACTS, Heard(v.members)), recvNs))
  {
    var ms := Heard(v.members);
    DecodesMembers(inst, v, recvNs);
    HeardIsDistinct(v.members);
    NothingKnown(ms);
    WalkLearns(inst, ms, NOTHING, NO_FACTS);
    if AllAccepted(inst, ms) {
      FactsByKey(inst, NO_FACTS, ms);
    }
    if WalkOn(inst, ms, NOTHING).Ok? {
      RecordAgrees(inst, WalkOn(inst, ms, NOTHING).value, FactsOf(inst, NO_FACTS, ms), recvNs);
    }
  }

  /** A diff decodes exactly when the fields the decoder gets to see allow it, to the record they determine:
    * the bids and then the asks in one buffer, whichever came first, both sequence numbers, and the venue's
    * time in nanoseconds. */
  lemma DecodesIff(inst: Instrument, v: Value, recvNs: nat)
    requires v.Object? && WellFormed(v) && IsDiff(v.members)
    ensures DecodeDelta(inst, Inner(v), recvNs).Ok? <==> Complete(inst, Heard(v.members))
    ensures DecodeDelta(inst, Inner(v), recvNs).Ok? ==>
              Records(inst, Heard(v.members), recvNs, DecodeDelta(inst, Inner(v), recvNs).value)
  {
    DecodesAsWalked(inst, v, recvNs);
    HeardIsDistinct(v.members);
    DecodesIsComplete(inst, Heard(v.members));
    if Decodes(inst, Heard(v.members)) {
      FactsRecord(inst, Heard(v.members), recvNs);
    }
  }

  // ------------------------------------------------------------------------------------------------
  // Why a diff is refused
  // ------------------------------------------------------------------------------------------------

  /** The levels of the sides still to come. */
  function Weight(ms: Members): nat
    requires AllFit(ms)
  {
    if ms.NoMembers? then 0 else (if IsSideKey(ms.key) then Count(ms.value.items) else 0) + Weight(ms.rest)
  }

  lemma {:induction false} WeightIsCounts(ms: Members)
    requires AllFit(ms) && Distinct(ms)
    ensures Weight(ms) == SideCount(ms, BIDS) + SideCount(ms, ASKS)
  {
    KeysDiffer();
    if ms.Member? {
      WeightIsCounts(ms.rest);
    }
  }

  /** Another symbol's diff, if its levels fit. */
  lemma {:induction false} MismatchRefused(inst: Instrument, ms: Members, p: Partial)
    requires AllFit(ms) && Distinct(ms) && SidesRead(inst, ms) && |p.levels| + Weight(ms) <= WIRE_MAX_DELTA_LEVELS
    requires Has(ms, INST_ID) && Fits(INST_ID, Lookup(ms, INST_ID).value)
    requires ScalarText(Lookup(ms, INST_ID).value) != inst.symbol
    ensures WalkOn(inst, ms, p) == Err(SymbolMismatch)
    decreases ms
  {
    KeysDiffer();
    if ms.key != INST_ID {
      if IsSideKey(ms.key) {
        SideRoom(inst, ms.key, ms.value.items, p);
      }
      MismatchRefused(inst, ms.rest, StepOn(inst, ms.key, ms.value, p).value);
    }
  }

  lemma SideTooLong(inst: Instrument, key: seq<byte>, items: Items, p: Partial)
    requires AllLevels(items) && AllRead(inst, items) && |p.levels| <= WIRE_MAX_DELTA_LEVELS < |p.levels| + Count(items)
    ensures SideOn(inst, key, items, p) == Err(DeltaOverflow)
  {
    ReadItemsIff(inst, items, [], Room(p));
  }

  /** Too many levels, the symbol being right. */
  lemma {:induction false} OverflowRefused(inst: Instrument, ms: Members, p: Partial)
    requires AllFit(ms) && Distinct(ms) && AllAccepted(inst, ms)
    requires |p.levels| <= WIRE_MAX_DELTA_LEVELS < |p.levels| + Weight(ms)
    ensures WalkOn(inst, ms, p) == Err(DeltaOverflow)
    decreases ms
  {
    KeysDiffer();
    if IsSideKey(ms.key) && |p.levels| + Count(ms.value.items) > WIRE_MAX_DELTA_LEVELS {
      SideTooLong(inst, ms.key, ms.value.items, p);
    } else {
      if IsSideKey(ms.key) {
        SideRoom(inst, ms.key, ms.value.items, p);
      }
      OverflowRefused(inst, ms.rest, StepOn(inst, ms.key, ms.value, p).value);
    }
  }

  /** The first of the four fields a diff must have that is not there. */
  function FirstMissing(ms: Members): Option<Key> {
    if Lookup(ms, Ascii("bids")).None? then Some(Bids)
    else if Lookup(ms, Ascii("asks")).None? then Some(Asks)
    else if Lookup(ms, Ascii("seqId")).None? then Some(SeqId)
    else if Lookup(ms, Ascii("prevSeqId")).None? then Some(PrevSeqId)
    else None
  }

  lemma MissingRefused(inst: Instrument, ms: Members, recvNs: nat)
    requires AllFit(ms) && Distinct(ms) && AllAccepted(inst, ms) && Weight(ms) <= WIRE_MAX_DELTA_LEVELS
    requires FirstMissing(ms).Some?
    ensures Finished(inst, WalkOn(inst, ms, NOTHING), recvNs) == Err(Missing(FirstMissing(ms).value))
  {
    KeysAreSpelled();
    NothingKnown(ms);
    WalkLearns(inst, ms, NOTHING, NO_FACTS);
    FactsByKey(inst, NO_FACTS, ms);
    TotalIsCounts(inst, ms);
    WeightIsCounts(ms);
  }

  /** The reason, when every level reads: another symbol, then too many levels, then the first field missing. */
  predicate Refuses(inst: Instrument, ms: Members, r: Result<DeltaRecord, CryptoError>)
    requires AllFit(ms)
  {
    var levels := SideCount(ms, Ascii("bids")) + SideCount(ms, Ascii("asks"));
    && (!Named(inst, ms) && levels <= 32 ==> r == Err(SymbolMismatch))
    && (Named(inst, ms) && levels > 32 ==> r == Err(DeltaOverflow))
    && (Named(inst, ms) && levels <= 32 && FirstMissing(ms).Some? ==> r == Err(Missing(FirstMissing(ms).value)))
  }

  lemma RefusedFor(inst: Instrument, v: Value, recvNs: nat)
    requires v.Object? && WellFormed(v) && IsDiff(v.members) && SidesRead(inst, Heard(v.members))
    ensures Refuses(inst, Heard(v.members), DecodeDelta(inst, Inner(v), recvNs))
  {
    var ms := Heard(v.members);
    KeysAreSpelled();
    HeardIsDistinct(v.members);
    DecodesMembers(inst, v, recvNs);
    AcceptedIsReadAndNamed(inst, ms);
    WeightIsCounts(ms);
    if !Named(inst, ms) {
      LookupFits(ms, INST_ID);
      if Weight(ms) <= 32 {
        MismatchRefused(inst, ms, NOTHING);
      }
    } else if Weight(ms) > 32 {
      OverflowRefused(inst, ms, NOTHING);
    } else if FirstMissing(ms).Some? {
      MissingRefused(inst, ms, recvNs);
    }
  }

  lemma SameFacts(inst: Instrument, a: Members, b: Members)
    requires AllFit(a) && Distinct(a) && AllFit(b) && Distinct(b) && SameFields(a, b)
    ensures AllAccepted(inst, a) <==> AllAccepted(inst, b)
    ensures FactsOf(inst, NO_FACTS, a) == FactsOf(inst, NO_FACTS, b)
  {
    if AllAccepted(inst, a) {
      AcceptedAlike(inst, a, b);
    }
    if AllAccepted(inst, b) {
      AcceptedAlike(inst, b, a);
    }
    forall key | IsSideKey(key) ensures SideOf(inst, a, key, None) == SideOf(inst, b, key, None) {
      assert Lookup(a, key) == Lookup(b, key);
    }
    forall key | IsScalarKey(key) ensures ScalarOf(a, key, None) == ScalarOf(b, key, None) {
      assert Lookup(a, key) == Lookup(b, key);
    }
  }

  /** Members in any order, with any whitespace between them, the sides being arrays: all decode to the same record
    * or none does. */
  lemma OrderDoesNotMatter(inst: Instrument, a: Value, b: Value, recvNs: nat)
    requires a.Object? && WellFormed(a) && IsDiff(a.members)
    requires b.Object? && WellFormed(b) && IsDiff(b.members)
    requires AllFit(a.members) && AllFit(b.members) && SameFields(a.members, b.members)
    ensures DecodeDelta(inst, Inner(a), recvNs).Ok? <==> DecodeDelta(inst, Inner(b), recvNs).Ok?
    ensures DecodeDelta(inst, Inner(a), recvNs).Ok? ==>
              DecodeDelta(inst, Inner(a), recvNs) == DecodeDelta(inst, Inner(b), recvNs)
  {
    DecodesAsWalked(inst, a, recvNs);
    DecodesAsWalked(inst, b, recvNs);
    SameFacts(inst, a.members, b.members);
  }

  /** The members as they are, the order forgotten. */
  ghost function Bag(ms: Members): multiset<(seq<byte>, Value)> {
    if ms.NoMembers? then multiset{} else multiset{(ms.key, ms.value)} + Bag(ms.rest)
  }

  lemma {:induction false} LookupInBag(ms: Members, key: seq<byte>, v: Value)
    requires Distinct(ms)
    ensures Lookup(ms, key) == Some(v) <==> (key, v) in Bag(ms)
    ensures Lookup(ms, key).None? ==> (key, v) !in Bag(ms)
  {
    if ms.Member? {
      LookupInBag(ms.rest, key, v);
    }
  }

  /** A permutation of members with distinct keys keeps what each key says. */
  lemma PermutedFields(a: Members, b: Members)
    requires Distinct(a) && Distinct(b) && Bag(a) == Bag(b)
    ensures SameFields(a, b)
  {
    forall key ensures Lookup(a, key) == Lookup(b, key) {
      if Lookup(a, key).Some? {
        LookupInBag(a, key, Lookup(a, key).value);
        LookupInBag(b, key, Lookup(a, key).value);
      } else if Lookup(b, key).Some? {
        LookupInBag(a, key, Lookup(b, key).value);
        LookupInBag(b, key, Lookup(b, key).value);
      }
    }
  }

  /** However the members of a diff are permuted, all orders decode to the same record or none does. */
  lemma PermutationsDecodeAlike(inst: Instrument, a: Value, b: Value, recvNs: nat)
    requires a.Object? && WellFormed(a) && IsDiff(a.members)
    requires b.Object? && WellFormed(b) && IsDiff(b.members)
    requires AllFit(a.members) && AllFit(b.members) && Bag(a.members) == Bag(b.members)
    ensures DecodeDelta(inst, Inner(a), recvNs).Ok? <==> DecodeDelta(inst, Inner(b), recvNs).Ok?
    ensures DecodeDelta(inst, Inner(a), recvNs).Ok? ==>
              DecodeDelta(inst, Inner(a), recvNs) == DecodeDelta(inst, Inner(b), recvNs)
  {
    PermutedFields(a.members, b.members);
    OrderDoesNotMatter(inst, a, b, recvNs);
  }

  // ------------------------------------------------------------------------------------------------
  // A side that is no array
  // ------------------------------------------------------------------------------------------------

  /** In front of everything else, such a side makes the other side missing, whatever follows. */
  lemma NoArrayFirst(inst: Instrument, v: Value, recvNs: nat)
    requires v.Object? && WellFormed(v) && v.members.Member? && NoKeyEmpty(v.members)
    requires NoArray(v.members.key, v.members.value)
    ensures DecodeDelta(inst, Inner(v), recvNs) == Err(Missing(if v.members.key == BIDS then Asks else Bids))
  {
    DecodesMembers(inst, v, recvNs);
    assert WalkOn(inst, Heard(v.members).rest, WithSide(NOTHING, [], v.members.key == BIDS)).Ok?;
  }

  function Plainly(key: seq<byte>, value: Value, rest: Members): Members {
    Member([], key, [], [], value, [], rest)
  }

  // ------------------------------------------------------------------------------------------------
  // Exactly when the order of the members matters
  // ------------------------------------------------------------------------------------------------

  /** Every member fits its key, or is a side that is no array. */
  predicate Shown(ms: Members)
    ensures Shown(ms) ==> Legible(ms)
  {
    ms.Member? ==> (Fits(ms.key, ms.value) || NoArray(ms.key, ms.value)) && Shown(ms.rest)
  }

  predicate Telling(ms: Members)
    ensures Telling(ms) ==> IsDiff(ms)
  {
    WellFormedMembers(ms) && NoKeyEmpty(ms) && Distinct(ms) && Shown(ms)
  }

  /** The object's members are those of `ms`, in some order and with some whitespace. */
  ghost predicate Tells(v: Value, ms: Members) {
    v.Object? && WellFormed(v) && Telling(v.members) && Bag(v.members) == Bag(ms)
  }

  /** Both decode, to the same record, or neither does. */
  predicate Alike(inst: Instrument, a: Value, b: Value, recvNs: nat)
    requires a.Object? && b.Object?
  {
    var x, y := DecodeDelta(inst, Inner(a), recvNs), DecodeDelta(inst, Inner(b), recvNs);
    (x.Ok? <==> y.Ok?) && (x.Ok? ==> x == y)
  }

  ghost predicate AllOrdersAlike(inst: Instrument, ms: Members, recvNs: nat) {
    forall a, b :: Tells(a, ms) && Tells(b, ms) ==> Alike(inst, a, b, recvNs)
  }

  predicate Has(ms: Members, key: seq<byte>) {
    Lookup(ms, key).Some?
  }

  /** One side is no array, and all that is asked for besides it is there and accepted. */
  predicate CompleteBut(inst: Instrument, ms: Members, bad: seq<byte>, good: seq<byte>)
    requires IsSideKey(good)
  {
    && Has(ms, bad) && NoArray(bad, Lookup(ms, bad).value)
    && Has(ms, good) && Fits(good, Lookup(ms, good).value) && Reads(inst, Lookup(ms, good).value)
    && Has(ms, SEQ_ID) && Has(ms, PREV_SEQ_ID)
  }

  predicate Reads(inst: Instrument, v: Value)
    requires v.Array? && AllLevels(v.items)
  {
    AllRead(inst, v.items) && Count(v.items) <= WIRE_MAX_DELTA_LEVELS
  }

  /** Exactly one side is no array, the other reads within the buffer, and both numbers are there. */
  predicate OrderCounts(inst: Instrument, ms: Members) {
    CompleteBut(inst, ms, BIDS, ASKS) || CompleteBut(inst, ms, ASKS, BIDS)
  }

  lemma SameMembers(a: Members, b: Members)
    requires Telling(a) && Telling(b) && Bag(a) == Bag(b)
    ensures SameFields(a, b)
  {
    PermutedFields(a, b);
  }

  lemma CountsAlike(inst: Instrument, a: Members, b: Members)
    requires SameFields(a, b)
    ensures OrderCounts(inst, a) <==> OrderCounts(inst, b)
  {
    assert forall key :: Lookup(a, key) == Lookup(b, key);
  }

  /** Members fit when no side is anything but an array. */
  predicate SidesAreArrays(ms: Members) {
    && (Has(ms, BIDS) ==> Lookup(ms, BIDS).value.Array?)
    && (Has(ms, ASKS) ==> Lookup(ms, ASKS).value.Array?)
  }

  lemma {:induction false} AllFitIff(ms: Members)
    requires Telling(ms)
    ensures AllFit(ms) <==> SidesAreArrays(ms)
  {
    if ms.Member? {
      KeysDiffer();
      AllFitIff(ms.rest);
    }
  }

  // ------------------------------------------------------------------------------------------------
  // When it does not
  // ------------------------------------------------------------------------------------------------

  /** The member at which the walk stops, if any, is heard as an empty side, and no member is heard otherwise
    * than it is. */
  lemma {:induction false} HeardOf(ms: Members, key: seq<byte>)
    requires Distinct(ms) && Shown(ms) && Has(Heard(ms), key)
    ensures Has(ms, key)
    ensures NoArray(key, Lookup(ms, key).value) || Lookup(Heard(ms), key) == Lookup(ms, key)
  {
    if ms.key != key {
      assert Lookup(NoMembers, key).None?;
      HeardOf(ms.rest, key);
    }
  }

  /** A side behind the one the walk stops at is not heard at all. */
  lemma {:induction false} OneRuined(ms: Members)
    requires Distinct(ms) && Shown(ms) && Has(Heard(ms), BIDS) && Has(Heard(ms), ASKS)
    ensures Lookup(ms, BIDS) == Lookup(Heard(ms), BIDS) || Lookup(ms, ASKS) == Lookup(Heard(ms), ASKS)
  {
    KeysDiffer();
    if ms.key == BIDS || ms.key == ASKS {
      if !NoArray(ms.key, ms.value) {
        assert Lookup(ms, ms.key) == Lookup(Heard(ms), ms.key);
      }
    } else {
      OneRuined(ms.rest);
    }
  }

  /** What decodes in spite of a side that is no array is complete but for it. */
  lemma DecodesInSpite(inst: Instrument, v: Value, recvNs: nat)
    requires v.Object? && WellFormed(v) && Telling(v.members) && !AllFit(v.members)
    requires DecodeDelta(inst, Inner(v), recvNs).Ok?
    ensures OrderCounts(inst, v.members)
  {
    var ms, heard := v.members, Heard(v.members);
    DecodesAsWalked(inst, v, recvNs);
    HeardFields(inst, heard);
    HeardOf(ms, SEQ_ID);
    HeardOf(ms, PREV_SEQ_ID);
    HeardOf(ms, BIDS);
    HeardOf(ms, ASKS);
    OneRuined(ms);
    AllFitIff(ms);
    KeysDiffer();
  }

  /** The fields of what decodes are all there, and each side reads within the buffer. */
  lemma HeardFields(inst: Instrument, heard: Members)
    requires AllFit(heard) && Decodes(inst, heard)
    ensures Has(heard, BIDS) && Has(heard, ASKS) && Has(heard, SEQ_ID) && Has(heard, PREV_SEQ_ID)
    ensures Fits(BIDS, Lookup(heard, BIDS).value) && Reads(inst, Lookup(heard, BIDS).value)
    ensures Fits(ASKS, Lookup(heard, ASKS).value) && Reads(inst, Lookup(heard, ASKS).value)
  {
    var f := FactsOf(inst, NO_FACTS, heard);
    LookupFits(heard, BIDS);
    LookupFits(heard, ASKS);
  }

  lemma NotCountingIsAlike(inst: Instrument, ms: Members, a: Value, b: Value, recvNs: nat)
    requires Telling(ms) && !OrderCounts(inst, ms) && Tells(a, ms) && Tells(b, ms)
    ensures Alike(inst, a, b, recvNs)
  {
    SameMembers(a.members, ms);
    SameMembers(b.members, ms);
    CountsAlike(inst, a.members, ms);
    CountsAlike(inst, b.members, ms);
    AllFitIff(a.members);
    AllFitIff(b.members);
    if AllFit(a.members) {
      PermutationsDecodeAlike(inst, a, b, recvNs);
    } else {
      assert DecodeDelta(inst, Inner(a), recvNs).Err? by {
        if DecodeDelta(inst, Inner(a), recvNs).Ok? {
          DecodesInSpite(inst, a, recvNs);
        }
      }
      if DecodeDelta(inst, Inner(b), recvNs).Ok? {
        DecodesInSpite(inst, b, recvNs);
      }
    }
  }

  // ------------------------------------------------------------------------------------------------
  // When it does: two orders that show it
  // ------------------------------------------------------------------------------------------------

  function Without(ms: Members, key: seq<byte>): Members {
    if ms.NoMembers? then ms else if ms.key == key then ms.rest else ms.(rest := Without(ms.rest, key))
  }

  lemma {:induction false} WithoutLacks(ms: Members, key: seq<byte>)
    requires Distinct(ms)
    ensures !Has(Without(ms, key), key)
    ensures forall k :: k != key ==> Lookup(Without(ms, key), k) == Lookup(ms, k)
  {
    if ms.Member? && ms.key != key {
      WithoutLacks(ms.rest, key);
    }
  }

  lemma {:induction false} WithoutTells(ms: Members, key: seq<byte>)
    requires Telling(ms)
    ensures Telling(Without(ms, key))
  {
    if ms.Member? && ms.key != key {
      WithoutTells(ms.rest, key);
      WithoutLacks(ms.rest, key);
    }
  }

  lemma {:induction false} BagWithout(ms: Members, key: seq<byte>)
    requires Has(ms, key)
    ensures Bag(ms) == multiset{(key, Lookup(ms, key).value)} + Bag(Without(ms, key))
  {
    if ms.key != key {
      BagWithout(ms.rest, key);
    }
  }

  lemma {:induction false} LookupTold(ms: Members, key: seq<byte>)
    requires Telling(ms) && Has(ms, key)
    ensures var v := Lookup(ms, key).value; WellFormed(v) && (Fits(key, v) || NoArray(key, v))
  {
    if ms.key != key {
      LookupTold(ms.rest, key);
    }
  }

  predicate Lettered(key: seq<byte>) {
    key != [] && forall i :: 0 <= i < |key| ==> key[i] != QUOTE && key[i] != BACKSLASH
  }

  lemma KeysAreLettered()
    ensures Lettered(BIDS) && Lettered(ASKS) && Lettered(SEQ_ID) && Lettered(PREV_SEQ_ID)
  {
  }

  lemma {:induction false} LettersAreRaw(key: seq<byte>)
    requires key == [] || Lettered(key)
    ensures Raw(key)
  {
    if key != [] {
      LettersAreRaw(key[1..]);
    }
  }

  /** The member of one key put in front of the others. */
  function ToFront(ms: Members, key: seq<byte>): Members
    requires Has(ms, key)
  {
    Plainly(key, Lookup(ms, key).value, Without(ms, key))
  }

  /** And in front of some of them, the rest having been taken out. */
  lemma InFront(key: seq<byte>, value: Value, rest: Members)
    requires Lettered(key) && WellFormed(value) && (Fits(key, value) || NoArray(key, value))
    requires Telling(rest) && !Has(rest, key)
    ensures Telling(Plainly(key, value, rest))
    ensures forall k :: Lookup(Plainly(key, value, rest), k) == if k == key then Some(value) else Lookup(rest, k)
    ensures Bag(Plainly(key, value, rest)) == multiset{(key, value)} + Bag(rest)
  {
    LettersAreRaw(key);
  }

  lemma MovesToFront(ms: Members, key: seq<byte>)
    requires Telling(ms) && Has(ms, key) && Lettered(key)
    ensures Telling(ToFront(ms, key)) && Bag(ToFront(ms, key)) == Bag(ms)
  {
    LookupTold(ms, key);
    WithoutLacks(ms, key);
    WithoutTells(ms, key);
    InFront(key, Lookup(ms, key).value, Without(ms, key));
    BagWithout(ms, key);
  }

  /** With the side that is no array in front, nothing decodes. */
  lemma RuinedFirst(inst: Instrument, ms: Members, bad: seq<byte>, recvNs: nat) returns (v: Value)
    requires Telling(ms) && Has(ms, bad) && NoArray(bad, Lookup(ms, bad).value)
    ensures Tells(v, ms) && DecodeDelta(inst, Inner(v), recvNs) == Err(Missing(if bad == BIDS then Asks else Bids))
  {
    KeysAreLettered();
    MovesToFront(ms, bad);
    v := Object([], ToFront(ms, bad));
    NoArrayFirst(inst, v, recvNs);
  }

  /** The four members that count, in front of the others, the side that is no array the last of them. */
  function Arranged(ms: Members, bad: seq<byte>, good: seq<byte>): Members
    requires Has(ms, bad) && Has(ms, good) && Has(ms, SEQ_ID) && Has(ms, PREV_SEQ_ID)
  {
    var others := Without(Without(Without(Without(ms, good), SEQ_ID), PREV_SEQ_ID), bad);
    Four(good, Lookup(ms, good).value, Lookup(ms, SEQ_ID).value, Lookup(ms, PREV_SEQ_ID).value,
         bad, Lookup(ms, bad).value, others)
  }

  function Four(
    good: seq<byte>, side: Value, seqId: Value, prevSeqId: Value, bad: seq<byte>, none: Value, others: Members)
    : Members
  {
    Plainly(good, side, Plainly(SEQ_ID, seqId, Plainly(PREV_SEQ_ID, prevSeqId, Plainly(bad, none, others))))
  }

  /** Taking a member out of what is left. */
  lemma TakesOut(ms: Members, key: seq<byte>) returns (v: Value, rest: Members)
    requires Telling(ms) && Has(ms, key)
    ensures Lookup(ms, key) == Some(v) && rest == Without(ms, key)
    ensures WellFormed(v) && (Fits(key, v) || NoArray(key, v))
    ensures Telling(rest) && !Has(rest, key) && forall k :: k != key ==> Lookup(rest, k) == Lookup(ms, k)
    ensures Bag(ms) == multiset{(key, v)} + Bag(rest)
  {
    v, rest := Lookup(ms, key).value, Without(ms, key);
    LookupTold(ms, key);
    WithoutLacks(ms, key);
    WithoutTells(ms, key);
    BagWithout(ms, key);
  }

  predicate SidePair(bad: seq<byte>, good: seq<byte>) {
    (bad == BIDS && good == ASKS) || (bad == ASKS && good == BIDS)
  }

  lemma ArrangedTells(ms: Members, bad: seq<byte>, good: seq<byte>)
    requires Telling(ms) && Has(ms, bad) && Has(ms, good) && Has(ms, SEQ_ID) && Has(ms, PREV_SEQ_ID) &&
               SidePair(bad, good)
    ensures Telling(Arranged(ms, bad, good)) && Bag(Arranged(ms, bad, good)) == Bag(ms)
  {
    KeysDiffer();
    KeysAreLettered();
    var side, r1 := TakesOut(ms, good);
    var s, r2 := TakesOut(r1, SEQ_ID);
    var p, r3 := TakesOut(r2, PREV_SEQ_ID);
    var none, others := TakesOut(r3, bad);
    var m4 := Plainly(bad, none, others);
    var m3 := Plainly(PREV_SEQ_ID, p, m4);
    var m2 := Plainly(SEQ_ID, s, m3);
    InFront(bad, none, others);
    InFront(PREV_SEQ_ID, p, m4);
    InFront(SEQ_ID, s, m3);
    InFront(good, side, m2);
  }

  lemma HeardInFront(key: seq<byte>, value: Value, rest: Members)
    requires !NoArray(key, value)
    ensures Heard(Plainly(key, value, rest)) == Plainly(key, value, Heard(rest))
  {
  }

  lemma HeardFour(
    good: seq<byte>, side: Value, seqId: Value, prevSeqId: Value, bad: seq<byte>, none: Value, others: Members)
    requires SidePair(bad, good) && side.Array? && NoArray(bad, none)
    ensures Heard(Four(good, side, seqId, prevSeqId, bad, none, others)) ==
            Four(good, side, seqId, prevSeqId, bad, EMPTY_SIDE, NoMembers)
  {
    KeysDiffer();
    var last := Plainly(bad, none, others);
    assert Heard(last) == Plainly(bad, EMPTY_SIDE, NoMembers);
    HeardInFront(PREV_SEQ_ID, prevSeqId, last);
    HeardInFront(SEQ_ID, seqId, Plainly(PREV_SEQ_ID, prevSeqId, last));
    HeardInFront(good, side, Plainly(SEQ_ID, seqId, Plainly(PREV_SEQ_ID, prevSeqId, last)));
  }

  lemma WalkOne(inst: Instrument, key: seq<byte>, value: Value, rest: Members, p: Partial, q: Partial)
    requires Fits(key, value) && AllFit(rest) && StepOn(inst, key, value, p) == Ok(q)
    ensures AllFit(Plainly(key, value, rest)) && WalkOn(inst, Plainly(key, value, rest), p) == WalkOn(inst, rest, q)
  {
  }

  /** The walk over those four ends well. */
  lemma WalksFour(inst: Instrument, good: seq<byte>, side: Value, seqId: Value, prevSeqId: Value, bad: seq<byte>)
    requires SidePair(bad, good) && Fits(good, side) && Reads(inst, side) && Scalar(seqId) && Scalar(prevSeqId)
    ensures var heard := Four(good, side, seqId, prevSeqId, bad, EMPTY_SIDE, NoMembers);
            AllFit(heard) && WalkOn(inst, heard, NOTHING).Ok? &&
            WalkOn(inst, heard, NOTHING).value.have == {Bids, Asks, SeqId, PrevSeqId}
  {
    KeysDiffer();
    var levels, s, t := LevelsOf(inst, side.items), Saturating(ScalarText(seqId), 0),
      Saturating(ScalarText(prevSeqId), 0);
    var p1 := WithSide(NOTHING, levels, good == BIDS);
    var p2 := p1.(seqId := s, have := p1.have + {SeqId});
    var p3 := p2.(prevSeqId := t, have := p2.have + {PrevSeqId});
    var last := Plainly(bad, EMPTY_SIDE, NoMembers);
    SideRoom(inst, good, side.items, NOTHING);
    WalkOne(inst, bad, EMPTY_SIDE, NoMembers, p3, WithSide(p3, [], bad == BIDS));
    WalkOne(inst, PREV_SEQ_ID, prevSeqId, last, p2, p3);
    WalkOne(inst, SEQ_ID, seqId, Plainly(PREV_SEQ_ID, prevSeqId, last), p1, p2);
    WalkOne(inst, good, side, Plainly(SEQ_ID, seqId, Plainly(PREV_SEQ_ID, prevSeqId, last)), NOTHING, p1);
  }

  /** With the side that is no array behind the other three fields, the diff decodes. */
  lemma RuinedBehind(inst: Instrument, ms: Members, bad: seq<byte>, good: seq<byte>, recvNs: nat) returns (v: Value)
    requires Telling(ms) && SidePair(bad, good) && CompleteBut(inst, ms, bad, good)
    ensures Tells(v, ms) && DecodeDelta(inst, Inner(v), recvNs).Ok?
  {
    KeysDiffer();
    var side, s, p := Lookup(ms, good).value, Lookup(ms, SEQ_ID).value, Lookup(ms, PREV_SEQ_ID).value;
    var none := Lookup(ms, bad).value;
    var others := Without(Without(Without(Without(ms, good), SEQ_ID), PREV_SEQ_ID), bad);
    LookupTold(ms, SEQ_ID);
    LookupTold(ms, PREV_SEQ_ID);
    v := Object([], Arranged(ms, bad, good));
    ArrangedTells(ms, bad, good);
    HeardFour(good, side, s, p, bad, none, others);
    WalksFour(inst, good, side, s, p, bad);
    DecodesMembers(inst, v, recvNs);
  }

  /** Over every order of a diff's members and all whitespace: all decode alike if and only if it is not the case
    * that exactly one side is no array while the other side reads and both numbers are there. */
  lemma AllOrdersAlikeIff(inst: Instrument, ms: Members, recvNs: nat)
    requires Telling(ms)
    ensures AllOrdersAlike(inst, ms, recvNs) <==> !OrderCounts(inst, ms)
  {
    if OrderCounts(inst, ms) {
      var bad := if CompleteBut(inst, ms, BIDS, ASKS) then BIDS else ASKS;
      var good := if CompleteBut(inst, ms, BIDS, ASKS) then ASKS else BIDS;
      var a := RuinedBehind(inst, ms, bad, good, recvNs);
      var b := RuinedFirst(inst, ms, bad, recvNs);
      assert !Alike(inst, a, b, recvNs);
    } else {
      forall a, b | Tells(a, ms) && Tells(b, ms) ensures Alike(inst, a, b, recvNs) {
        NotCountingIsAlike(inst, ms, a, b, recvNs);
      }
    }
  }

  lemma ScalarMember(key: seq<byte>, rest: Members)
    requires IsScalarKey(key) && Lettered(key) && Telling(rest) && !Has(rest, key)
    ensures Telling(Plainly(key, Value.Number([ZERO]), rest))
    ensures forall k :: Lookup(Plainly(key, Value.Number([ZERO]), rest), k) ==
                        if k == key then Some(Value.Number([ZERO])) else Lookup(rest, k)
  {
    KeysDiffer();
    InFront(key, Value.Number([ZERO]), rest);
  }

  /** Every instrument has such a diff: its bids are `null`, its asks empty. */
  lemma SomeOrderCounts(inst: Instrument) returns (ms: Members)
    ensures Telling(ms) && CompleteBut(inst, ms, BIDS, ASKS)
  {
    KeysDiffer();
    KeysAreLettered();
    assert Telling(NoMembers);
    ScalarMember(PREV_SEQ_ID, NoMembers);
    var one := Plainly(PREV_SEQ_ID, Value.Number([ZERO]), NoMembers);
    ScalarMember(SEQ_ID, one);
    var two := Plainly(SEQ_ID, Value.Number([ZERO]), one);
    InFront(ASKS, EMPTY_SIDE, two);
    var three := Plainly(ASKS, EMPTY_SIDE, two);
    InFront(BIDS, Literal(NULL), three);
    ms := Plainly(BIDS, Literal(NULL), three);
  }

  /** So for every instrument there is a diff that decodes and a permutation of it that does not. */
  lemma OrderMattersWithoutArray(inst: Instrument, recvNs: nat) returns (a: Value, b: Value)
    ensures a.Object? && WellFormed(a) && Telling(a.members)
    ensures b.Object? && WellFormed(b) && Telling(b.members)
    ensures Bag(a.members) == Bag(b.members)
    ensures DecodeDelta(inst, Inner(a), recvNs).Ok? && DecodeDelta(inst, Inner(b), recvNs) == Err(Missing(Asks))
  {
    var ms := SomeOrderCounts(inst);
    a := RuinedBehind(inst, ms, BIDS, ASKS, recvNs);
    b := RuinedFirst(inst, ms, BIDS, recvNs);
  }
}

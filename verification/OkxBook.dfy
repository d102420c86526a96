/** An OKX book update: two sides in one buffer, in whichever order they arrive. */
module OkxBook {
  import opened Wrappers
  import opened Bytes
  import opened JsonScan
  import opened CryptoLevels

  const BIDS: seq<byte> := [0x62, 0x69, 0x64, 0x73]
  const ASKS: seq<byte> := [0x61, 0x73, 0x6B, 0x73]
  const SEQ_ID: seq<byte> := [0x73, 0x65, 0x71, 0x49, 0x64]
  const PREV_SEQ_ID: seq<byte> := [0x70, 0x72, 0x65, 0x76, 0x53, 0x65, 0x71, 0x49, 0x64]
  const TS: seq<byte> := [0x74, 0x73]
  const INST_ID: seq<byte> := [0x69, 0x6E, 0x73, 0x74, 0x49, 0x64]

  /** What has been read so far: the shared buffer's levels, the two counts, and the fields seen. */
  datatype Partial = Partial(
    levels: seq<Level>, bidCount: nat, askCount: nat, askFirst: bool,
    seqId: nat, prevSeqId: nat, ts: Option<nat>, have: set<Key>)

  datatype DeltaRecord = DeltaRecord(
    symbol: seq<byte>, recvNs: nat, venueNs: Option<nat>,
    levels: seq<Level>, bidCount: nat, askCount: nat,
    firstUpdateId: nat, finalUpdateId: nat, prevFinalUpdateId: nat)

  const NOTHING: Partial := Partial([], 0, 0, false, 0, 0, None, {})

  type Outcome = Result<Partial, CryptoError>

  /** `millis_to_nanos`. */
  function MillisToNanos(ms: nat): nat {
    Saturate(ms * 1_000_000)
  }

  /** One side's levels behind what the buffer already holds. */
  function WithSide(p: Partial, side: seq<Level>, isBid: bool): Partial {
    if isBid then p.(levels := p.levels + side, bidCount := |side|, have := p.have + {Bids})
    else
      p.(levels := p.levels + side, askCount := |side|, have := p.have + {Asks},
         askFirst := p.askFirst || (p.levels == [] && p.bidCount == 0))
  }

  /** A field whose value is one scalar. */
  function WithScalar(inst: Instrument, key: seq<byte>, text: seq<byte>, p: Partial): Outcome {
    if key == SEQ_ID then Ok(p.(seqId := Saturating(text, 0), have := p.have + {SeqId}))
    else if key == PREV_SEQ_ID then Ok(p.(prevSeqId := Saturating(text, 0), have := p.have + {PrevSeqId}))
    else if key == TS then Ok(p.(ts := Some(Saturating(text, 0))))
    else if text != inst.symbol then Err(SymbolMismatch)
    else Ok(p)
  }

  predicate IsScalarKey(key: seq<byte>) {
    key == SEQ_ID || key == PREV_SEQ_ID || key == TS || key == INST_ID
  }

  function Room(p: Partial): nat {
    if |p.levels| <= WIRE_MAX_DELTA_LEVELS then WIRE_MAX_DELTA_LEVELS - |p.levels| else 0
  }

  /** What one member does to what has been read. */
  function Step(inst: Instrument, data: seq<byte>, at: nat, key: seq<byte>, p: Partial): Outcome
    requires at <= |data|
  {
    if key == BIDS || key == ASKS then
      match DeltaSide(inst, data, at, Room(p))
      case Err(e) => Err(e)
      case Ok(side) => Ok(WithSide(p, side.levels, key == BIDS))
    else if IsScalarKey(key) then WithScalar(inst, key, ScalarBytes(data, WsEnd(data, at)), p)
    else Ok(p)
  }

  /** And where it leaves the scan. */
  function StepEnd(inst: Instrument, data: seq<byte>, at: nat, key: seq<byte>, p: Partial): (end: nat)
    requires at <= |data|
    ensures at <= end <= |data|
  {
    if key == BIDS || key == ASKS then
      match DeltaSide(inst, data, at, Room(p))
      case Err(_) => at
      case Ok(side) => side.past
    else if IsScalarKey(key) then ScalarEnd(data, WsEnd(data, at))
    else ValueEnd(data, at)
  }

  /** The walk over the members, from the one whose key opens at `open`. */
  function DeltaWalk(inst: Instrument, data: seq<byte>, open: nat, p: Partial): Outcome
    requires open <= |data|
    decreases |data| - open
  {
    var key := BytesOf(data, open);
    if key == [] then Ok(p)
    else
      var at := ValueOf(data, open);
      match Step(inst, data, at, key, p)
      case Err(e) => Err(e)
      case Ok(q) => DeltaWalk(inst, data, QuoteFrom(data, StepEnd(inst, data, at, key, p)), q)
  }

  /** `require` over the four fields of a diff, in the order its table names them. */
  function Require(have: set<Key>): Option<CryptoError> {
    if Bids !in have then Some(Missing(Bids))
    else if Asks !in have then Some(Missing(Asks))
    else if SeqId !in have then Some(Missing(SeqId))
    else if PrevSeqId !in have then Some(Missing(PrevSeqId))
    else None
  }

  /** The shared buffer with the bids in front. */
  function Rotated(p: Partial): seq<Level> {
    if p.askFirst && p.askCount <= |p.levels| then p.levels[p.askCount..] + p.levels[..p.askCount] else p.levels
  }

  function RecordOf(inst: Instrument, p: Partial, recvNs: nat): DeltaRecord {
    DeltaRecord(inst.symbol, recvNs, if p.ts.Some? then Some(MillisToNanos(p.ts.value)) else None,
                Rotated(p), p.bidCount, p.askCount, p.seqId, p.seqId, p.prevSeqId)
  }

  function Finished(inst: Instrument, walked: Outcome, recvNs: nat): Result<DeltaRecord, CryptoError> {
    match walked
    case Err(e) => Err(e)
    case Ok(p) => if Require(p.have).Some? then Err(Require(p.have).value) else Ok(RecordOf(inst, p, recvNs))
  }

  /** `delta`. */
  function DecodeDelta(inst: Instrument, data: seq<byte>, recvNs: nat): Result<DeltaRecord, CryptoError> {
    Finished(inst, DeltaWalk(inst, data, QuoteFrom(data, 0), NOTHING), recvNs)
  }

  // ------------------------------------------------------------------------------------------------
  // The decoder
  // ------------------------------------------------------------------------------------------------

  /** `Sides`: how much of the shared array is filled, by which side, and which landed first. */
  class Sides {
    var written: nat
    var bidCount: nat
    var askCount: nat
    var askFirst: bool

    constructor ()
      ensures written == 0 && bidCount == 0 && askCount == 0 && !askFirst
    {
      written, bidCount, askCount, askFirst := 0, 0, 0, false;
    }

    /** The buffer and the counts are those of `p`. */
    ghost predicate Match(levels: array<Level>, p: Partial)
      reads this, levels
    {
      && levels.Length == WIRE_MAX_DELTA_LEVELS && Holds(levels, 0, p.levels)
      && written == |p.levels| && bidCount == p.bidCount && askCount == p.askCount && askFirst == p.askFirst
      && p.askCount <= |p.levels|
    }

    /** `read`: one side's array into the free tail. */
    method Read(inst: Instrument, data: seq<byte>, start: nat, levels: array<Level>, isBid: bool, ghost p: Partial)
      returns (r: Result<nat, CryptoError>)
      requires start <= |data| && Match(levels, p)
      modifies this, levels
      ensures r.Err? ==> DeltaSide(inst, data, start, Room(p)) == Err(r.error)
      ensures r.Ok? ==> DeltaSide(inst, data, start, Room(p)).Ok?
      ensures r.Ok? ==> var side := DeltaSide(inst, data, start, Room(p)).value;
                        r.value == side.past && Match(levels, WithSide(p, side.levels, isBid))
    {
      if !isBid && written == 0 && bidCount == 0 {
        askFirst := true;
      }
      var n, next := DeltaLevels(inst, data, start, levels, written);
      if n.Err? {
        return Err(n.error);
      }
      ghost var side := DeltaSide(inst, data, start, Room(p)).value.levels;
      assert Holds(levels, 0, p.levels + side) by {
        forall i | 0 <= i < |p.levels + side| ensures levels[0 + i] == (p.levels + side)[i] {
          if i >= |p.levels| {
            assert levels[|p.levels| + (i - |p.levels|)] == side[i - |p.levels|];
          }
        }
      }
      written := written + n.value;
      if isBid {
        bidCount := n.value;
      } else {
        askCount := n.value;
      }
      return Ok(next);
    }

    /** `finish`: the bids rotated to the front, if they were not there already. */
    method Finish(levels: array<Level>, ghost p: Partial)
      requires Match(levels, p)
      modifies levels
      ensures Holds(levels, 0, Rotated(p))
    {
      if askFirst {
        assert levels[askCount..written] == p.levels[askCount..] && levels[..askCount] == p.levels[..askCount];
        RotateLeft(levels, written, askCount);
      }
    }
  }

  /** `levels[..n].rotate_left(k)`. */
  method RotateLeft(levels: array<Level>, n: nat, k: nat)
    requires k <= n <= levels.Length
    modifies levels
    ensures Holds(levels, 0, old(levels[k..n]) + old(levels[..k]))
  {
    var front := levels[..k];
    ghost var was := levels[..];
    var i := 0;
    while i < n - k
      invariant 0 <= i <= n - k
      invariant forall j :: 0 <= j < i ==> levels[j] == was[k + j]
      invariant forall j :: i <= j < n ==> levels[j] == was[j]
    {
      levels[i] := levels[i + k];
      i := i + 1;
    }
    PutBehind(levels, n - k, front);
    HoldsBoth(levels, was[k..n], front);
  }

  /** The levels saved go in behind those moved. */
  method PutBehind(levels: array<Level>, from: nat, front: seq<Level>)
    requires from + |front| <= levels.Length
    modifies levels
    ensures Holds(levels, from, front) && forall j :: 0 <= j < from ==> levels[j] == old(levels[j])
  {
    var i := 0;
    while i < |front|
      invariant 0 <= i <= |front|
      invariant forall j :: 0 <= j < from ==> levels[j] == old(levels[j])
      invariant forall j :: 0 <= j < i ==> levels[from + j] == front[j]
    {
      levels[from + i] := front[i];
      i := i + 1;
    }
  }

  lemma HoldsBoth(levels: array<Level>, a: seq<Level>, b: seq<Level>)
    requires |a| + |b| <= levels.Length && Holds(levels, |a|, b) && forall j :: 0 <= j < |a| ==> levels[j] == a[j]
    ensures Holds(levels, 0, a + b)
  {
    forall j | 0 <= j < |a + b| ensures levels[0 + j] == (a + b)[j] {
      if j >= |a| {
        assert levels[|a| + (j - |a|)] == b[j - |a|];
      }
    }
  }

  lemma WalkGoesOn(
    inst: Instrument, data: seq<byte>, open: nat, at: nat, key: seq<byte>, p: Partial, q: Partial, end: nat)
    requires open <= |data| && key == BytesOf(data, open) && key != [] && at == ValueOf(data, open)
    requires Step(inst, data, at, key, p) == Ok(q) && StepEnd(inst, data, at, key, p) == end
    ensures DeltaWalk(inst, data, open, p) == DeltaWalk(inst, data, QuoteFrom(data, end), q)
  {
  }

  /** The record the caller lends. */
  class Output {
    var record: Option<DeltaRecord>

    constructor ()
      ensures record == None
    {
      record := None;
    }
  }

  /** `delta`: the record is written only when the whole object has decoded. */
  method Delta(inst: Instrument, data: seq<byte>, recvNs: nat, out: Output) returns (r: Option<CryptoError>)
    modifies out
    ensures r.Some? ==> DecodeDelta(inst, data, recvNs) == Err(r.value) && out.record == old(out.record)
    ensures r.None? ==> DecodeDelta(inst, data, recvNs).Ok? && out.record == Some(DecodeDelta(inst, data, recvNs).value)
  {
    var levels := new Level[WIRE_MAX_DELTA_LEVELS](_ => Level(0, 0));
    var sides := new Sides();
    var seqId, prevSeqId, ts, have := 0, 0, None, {};
    ghost var p, whole := NOTHING, DeltaWalk(inst, data, QuoteFrom(data, 0), NOTHING);
    var pos := 0;
    while true
      invariant pos <= |data| && out.record == old(out.record)
      invariant fresh(levels) && fresh(sides) && sides.Match(levels, p)
      invariant seqId == p.seqId && prevSeqId == p.prevSeqId && ts == p.ts && have == p.have
      invariant DeltaWalk(inst, data, QuoteFrom(data, pos), p) == whole
      decreases |data| - pos
    {
      var key, at := NextField(data, pos);
      if key == [] {
        break;
      }
      ghost var before, open := p, QuoteFrom(data, pos);
      if key == BIDS || key == ASKS {
        var next := sides.Read(inst, data, at, levels, key == BIDS, p);
        if next.Err? {
          return Some(next.error);
        }
        have := have + {if key == BIDS then Bids else Asks};
        p := WithSide(p, DeltaSide(inst, data, at, Room(p)).value.levels, key == BIDS);
        pos := next.value;
      } else if key == SEQ_ID {
        seqId, pos := ParseScalarU64(data, at);
        have := have + {SeqId};
        p := p.(seqId := seqId, have := have);
      } else if key == PREV_SEQ_ID {
        prevSeqId, pos := ParseScalarU64(data, at);
        have := have + {PrevSeqId};
        p := p.(prevSeqId := prevSeqId, have := have);
      } else if key == TS {
        var ms, next := ParseScalarU64(data, at);
        ts, pos := Some(ms), next;
        p := p.(ts := ts);
      } else if key == INST_ID {
        var text, next := ParseScalarBytes(data, at);
        if text != inst.symbol {
          return Some(SymbolMismatch);
        }
        pos := next;
      } else {
        pos := SkipValue(data, at);
      }
      assert Step(inst, data, at, key, before) == Ok(p);
      assert StepEnd(inst, data, at, key, before) == pos;
      WalkGoesOn(inst, data, open, at, key, before, p, pos);
    }
    if Require(have).Some? {
      return Some(Require(have).value);
    }
    Emit(inst, recvNs, sides, levels, seqId, prevSeqId, ts, out, p);
    return None;
  }

  /** The decoded record, its bids in front. */
  method Emit(inst: Instrument, recvNs: nat, sides: Sides, levels: array<Level>, seqId: nat, prevSeqId: nat,
              ts: Option<nat>, out: Output, ghost p: Partial)
    requires sides.Match(levels, p) && seqId == p.seqId && prevSeqId == p.prevSeqId && ts == p.ts
    modifies levels, out
    ensures out.record == Some(RecordOf(inst, p, recvNs))
  {
    sides.Finish(levels, p);
    var venueNs := if ts.Some? then Some(MillisToNanos(ts.value)) else None;
    HeldText(levels, Rotated(p));
    out.record := Some(DeltaRecord(inst.symbol, recvNs, venueNs, levels[..sides.written],
                                   sides.bidCount, sides.askCount, seqId, seqId, prevSeqId));
  }

  lemma HeldText(levels: array<Level>, held: seq<Level>)
    requires Holds(levels, 0, held)
    ensures levels[..|held|] == held
  {
    assert forall i :: 0 <= i < |held| ==> levels[0 + i] == held[i];
  }
}

/** The producer and the consumer of a segment, updating shared memory in place.
  *
  * `Segment.model` is the state of the step system this memory has reached: every method says which of its
  * steps it takes, so what is proved of the step system over all interleavings is proved of these programs.
  */
module Ring {
  import opened Words
  import opened RingProtocol
  import opened RingDelivery
  import opened RingPush

  datatype Recv = Record | Empty | Lagged(count: nat) | Restarted(bootId: nat)

  /** A segment: `capacity` record slots after the producer's cursor and boot identity. */
  class Segment {
    const capacity: nat
    const words: array2<Word>
    var cursor: nat
    var bootId: nat
    ghost var model: State

    /** The memory holds what the step system says it holds. */
    ghost predicate Valid()
      reads this, words
    {
      && words.Length0 == capacity == model.Capacity() && words.Length1 == RECORD_WORDS
      && model.cursor == cursor
      && forall j, i :: 0 <= j < capacity && 0 <= i < RECORD_WORDS ==> model.slots[j][i] == words[j, i]
    }

    constructor (capacity: nat)
      requires capacity > 0
      ensures Valid() && this.capacity == capacity && fresh(words) && bootId == 0 && Booted(model)
    {
      this.capacity := capacity;
      this.words := new Word[capacity, RECORD_WORDS]((_, _) => 0);
      this.cursor := 0;
      this.bootId := 0;
      this.model := RawState(seq(capacity, _ => seq(RECORD_WORDS, _ => 0)), 0, 0, Idle, false, [], Detached, 0, 0, []);
    }
  }

  /** The writing end: one per segment. */
  class RingProducer {
    const seg: Segment
    const mask: nat
    var nextSeq: nat

    ghost predicate Valid()
      reads this, seg, seg.words
    {
      && seg.Valid() && IsPowerOfTwo(seg.capacity) && mask == seg.capacity - 1
      && seg.model.next == nextSeq && Shaped(seg.model)
    }

    /** Writes a fresh header; the records of an earlier run are left in place. */
    constructor (seg: Segment, bootId: nat)
      requires seg.Valid() && IsPowerOfTwo(seg.capacity)
      modifies seg
      ensures Valid() && this.seg == seg && nextSeq == 0
      ensures Booted(seg.model) && seg.model.slots == old(seg.model.slots) && seg.bootId == bootId
    {
      this.seg := seg;
      this.mask := seg.capacity - 1;
      this.nextSeq := 0;
      new;
      seg.bootId := bootId;
      seg.cursor := 0;
      seg.model := RawState(seg.model.slots, 0, 0, Idle, false, [], Detached, 0, 0, []);
    }

    /** Claims the next slot: it is marked in progress before anything else is written to it. */
    method Slot() returns (j: nat)
      requires Valid() && seg.model.phase.Idle? && nextSeq < SEQ_IN_PROGRESS
      modifies seg, seg.words
      ensures Valid() && nextSeq == old(nextSeq) && seg.bootId == old(seg.bootId)
      ensures j == nextSeq % seg.capacity && seg.model == Apply(old(seg.model), Claim)
      ensures seg.words[j, 1] == 0xFFFF_FFFF_FFFF_FFFF
      ensures forall k, i :: 0 <= k < seg.capacity && 0 <= i < 80 && (k != j || i != 1) ==>
                seg.words[k, i] == old(seg.words[k, i])
    {
      MaskIsModulo(nextSeq, seg.capacity);
      j := And(nextSeq, mask);
      seg.words[j, SEQ_WORD] := SEQ_IN_PROGRESS;
      seg.model := Apply(seg.model, Claim);
    }

    /** One word of a fill, written straight into the claimed slot. */
    method Fill(j: nat, i: nat, w: Word)
      requires Valid() && seg.model.phase.Filling? && j == nextSeq % seg.capacity && i < RECORD_WORDS
      modifies seg, seg.words
      ensures Valid() && nextSeq == old(nextSeq) && seg.bootId == old(seg.bootId)
      ensures seg.model == Apply(old(seg.model), Store(i, w))
    {
      seg.words[j, i] := w;
      seg.model := Apply(seg.model, Store(i, w));
    }

    /** The fill is given up. Nothing is published, and the next claim takes the same slot. */
    method Abandon()
      requires Valid() && seg.model.phase.Filling?
      modifies seg`model
      ensures Valid() && seg.model == Apply(old(seg.model), Step.Abandon)
    {
      seg.model := Apply(seg.model, Step.Abandon);
    }

    /** Stamps the sequence and moves the cursor past it. */
    method Commit(j: nat) returns (number: nat)
      requires Valid() && seg.model.phase.Filling? && j == nextSeq % seg.capacity
      modifies this, seg, seg.words
      ensures Valid() && number == old(nextSeq) && nextSeq == number + 1 && seg.bootId == old(seg.bootId)
      ensures seg.model == Apply(Apply(old(seg.model), Stamp), Publish)
      ensures seg.words[j, 1] == number && seg.cursor == number + 1
      ensures forall k, i :: 0 <= k < seg.capacity && 0 <= i < 80 && (k != j || i != 1) ==>
                seg.words[k, i] == old(seg.words[k, i])
    {
      number := nextSeq;
      seg.words[j, SEQ_WORD] := number;
      seg.model := Apply(seg.model, Stamp);
      nextSeq := number + 1;
      seg.cursor := number + 1;
      seg.model := Apply(seg.model, Publish);
    }

    /** A whole record in one go: claimed, filled word by word in ascending order, stamped, made visible. */
    method Push(rec: Record) returns (number: nat)
      requires Valid() && seg.model.phase.Idle? && nextSeq < SEQ_IN_PROGRESS
      modifies this, seg, seg.words
      ensures Valid() && number == old(nextSeq) && nextSeq == number + 1 && seg.bootId == old(seg.bootId)
      ensures seg.model == Run(old(seg.model), PushSteps(rec))
      ensures seg.words[number % seg.capacity, 1] == number
      ensures forall i :: 0 <= i < 80 && i != 1 ==> seg.words[number % seg.capacity, i] == rec[i]
      ensures forall j, i :: 0 <= j < seg.capacity && j != number % seg.capacity && 0 <= i < 80 ==>
                seg.words[j, i] == old(seg.words[j, i])
    {
      ghost var before := seg.model;
      var j := Slot();
      CopyIn(j, rec);
      number := Commit(j);
      PushUnfolds(before, rec);
      PushPublishes(before, rec);
    }

    /** The word-by-word copy of a record into the claimed slot. */
    method CopyIn(j: nat, rec: Record)
      requires Valid() && seg.model.phase.Filling? && j == nextSeq % seg.capacity
      modifies seg, seg.words
      ensures Valid() && nextSeq == old(nextSeq) && seg.bootId == old(seg.bootId) && seg.model.phase.Filling?
      ensures seg.model == Run(old(seg.model), FillSteps(rec, RECORD_WORDS))
    {
      ghost var before := seg.model;
      var i := 0;
      while i < RECORD_WORDS
        invariant i <= RECORD_WORDS
        invariant Valid() && nextSeq == old(nextSeq) && seg.bootId == old(seg.bootId)
        invariant seg.model == Run(before, FillSteps(rec, i)) && seg.model.phase.Filling?
      {
        FillSnoc(before, rec, i + 1);
        Fill(j, i, rec[i]);
        i := i + 1;
      }
    }
  }

  /** The reading end. */
  class RingConsumer {
    const seg: Segment
    const mask: nat
    var bootId: nat
    var nextSeq: nat

    ghost predicate Valid()
      reads this, seg, seg.words
    {
      && seg.Valid() && IsPowerOfTwo(seg.capacity) && mask == seg.capacity - 1
      && (bootId == seg.bootId ==> seg.model.pc == Ready && seg.model.want == nextSeq)
    }

    /** Attaches at the live edge. */
    constructor (seg: Segment)
      requires seg.Valid() && IsPowerOfTwo(seg.capacity) && seg.model.pc.Detached?
      modifies seg`model
      ensures Valid() && this.seg == seg && bootId == seg.bootId && nextSeq == seg.cursor
      ensures seg.model == Apply(old(seg.model), Attach)
    {
      this.seg := seg;
      this.mask := seg.capacity - 1;
      this.bootId := seg.bootId;
      this.nextSeq := seg.cursor;
      new;
      seg.model := Apply(seg.model, Attach);
    }

    /** Reads the next record into `out`, the producer standing still: what `CallIsReceived` proves of the
      * loads of one call. After a restart it only takes its place at the new run's live edge. */
    method TryRecv(out: array<Word>) returns (r: Recv)
      requires Valid() && out.Length == RECORD_WORDS && out != seg.words as object
      requires bootId != seg.bootId ==> seg.model.pc.Detached?
      modifies this, seg`model, out
      ensures Valid() && bootId == seg.bootId
      ensures old(bootId) != seg.bootId ==>
                r == Restarted(seg.bootId) && nextSeq == seg.cursor && seg.model == Apply(old(seg.model), Attach)
      ensures old(bootId) == seg.bootId ==>
                seg.model == Received(old(seg.model)) && seg.model.events != [] &&
                Answers(r, out[..], seg.model.events[|seg.model.events| - 1])
      ensures !r.Record? ==> out[..] == old(out[..])
    {
      var boot := seg.bootId;
      var published := seg.cursor;
      if boot != bootId {
        bootId := boot;
        nextSeq := published;
        seg.model := Apply(seg.model, Attach);
        return Restarted(boot);
      }
      ghost var before := seg.model;
      seg.model := Received(before);

      var want := nextSeq;
      if want >= published {
        return Empty;
      }
      if published - want > seg.capacity {
        var safe := published - seg.capacity;
        nextSeq := safe;
        return Lagged(safe - want);
      }
      MaskIsModulo(want, seg.capacity);
      var j := And(want, mask);
      var seen := seg.words[j, SEQ_WORD];
      if seen == want {
        CopyOut(j, before.slots[j], out);
        seen := seg.words[j, SEQ_WORD];
      }
      if seen != want {
        r := Reseat(want);
      } else {
        nextSeq := want + 1;
        r := Recv.Record;
      }
    }

    /** The word-by-word copy of one slot. */
    method CopyOut(j: nat, ghost record: Record, out: array<Word>)
      requires seg.words.Length1 == RECORD_WORDS && j < seg.words.Length0
      requires out.Length == RECORD_WORDS && out != seg.words as object
      requires forall i :: 0 <= i < RECORD_WORDS ==> seg.words[j, i] == record[i]
      modifies out
      ensures out[..] == record
    {
      var i := 0;
      while i < RECORD_WORDS
        invariant i <= RECORD_WORDS
        invariant out[..i] == record[..i]
      {
        out[i] := seg.words[j, i];
        i := i + 1;
      }
    }

    /** Moves past whatever the producer has taken back after a race lost over the slot of `want`. */
    method Reseat(want: nat) returns (r: Recv)
      modifies this`nextSeq
      ensures nextSeq == (if seg.cursor > want + seg.capacity then seg.cursor - seg.capacity else want)
      ensures r == Lagged(nextSeq - want)
    {
      var published := seg.cursor;
      var safe := if published > seg.capacity then published - seg.capacity else 0;
      nextSeq := if safe > want then safe else want;
      r := Lagged(nextSeq - want);
    }
  }

  /** The outcome a caller sees and the event the step system records are the same thing. */
  predicate Answers(r: Recv, out: seq<Word>, e: Event) {
    match e
    case Delivered(_, record) => r == Recv.Record && out == record
    case Nothing => r == Empty
    case Skipped(_, count) => r == Lagged(count)
  }
}

/** Exactly when fills that leave zero in the sequence word can be read torn.
  *
  * A record header starts out with `producer_seq` 0, and `push` copies the whole record into the claimed
  * slot, so the sequence word passes through 0 while the body is being rewritten. For a consumer waiting
  * on any later sequence that is harmless. For one waiting on sequence 0 it is not.
  */
module RingTornRead {
  import opened RingProtocol
  import opened RingDelivery

  /** Every value a fill leaves in a sequence word is zero. */
  ghost predicate ZeroStamped(steps: seq<Step>) {
    forall k :: 0 <= k < |steps| && steps[k].Store? && steps[k].i == SEQ_WORD ==> steps[k].w == 0
  }

  ghost predicate Intact(st: State) {
    forall k :: 0 <= k < |st.events| && st.events[k].Delivered? ==>
      st.events[k].number < |st.log| && st.events[k].out == st.log[st.events[k].number]
  }

  /** No zero-stamped run over `capacity` slots whose consumer attached at `from` hands over a torn record. */
  ghost predicate NeverTorn(capacity: nat, from: nat) {
    forall boot: State, steps: seq<Step> ::
      Booted(boot) && boot.Capacity() == capacity && ZeroStamped(steps) && Run(boot, steps).start == from ==>
        Intact(Run(boot, steps))
  }

  lemma LaterAttachIsSafe(boot: State, steps: seq<Step>)
    requires Booted(boot) && ZeroStamped(steps) && Run(boot, steps).start > 0
    ensures Intact(Run(boot, steps))
  {
    var st := Run(boot, steps);
    assert Reachable(st);
    ReachableAccounted(st);
    forall k | 0 <= k < |st.events| && st.events[k].Delivered?
      ensures st.events[k].number < |st.log| && st.events[k].out == st.log[st.events[k].number]
    {
      assert Told(st, k);
      assert Unforged(steps, st.events[k].number);
      NoTornRead(st, st.events[k].number, k);
    }
  }

  // ------------------------------------------------------------------------------------------------
  // The torn read of record 0
  // ------------------------------------------------------------------------------------------------

  predicate OfProducer(step: Step) {
    step.Claim? || step.Store? || step.Abandon? || step.Stamp? || step.Publish?
  }

  /** The producer's share of an interleaving. */
  function ProducerPart(steps: seq<Step>): seq<Step> {
    if steps == [] then []
    else
      var last := steps[|steps| - 1];
      ProducerPart(steps[..|steps| - 1]) + if OfProducer(last) then [last] else []
  }

  /** One push after another. */
  function Pushes(recs: seq<Record>): seq<Step> {
    if recs == [] then [] else Pushes(recs[..|recs| - 1]) + PushSteps(recs[|recs| - 1])
  }

  /** Records as they are before they are published: their own sequence word is still zero. */
  predicate Unstamped(recs: seq<Record>) {
    forall k :: 0 <= k < |recs| ==> recs[k][SEQ_WORD] == 0
  }

  /** The producer does nothing but push unstamped records, and may be in the middle of a push. */
  ghost predicate PushesOnly(steps: seq<Step>) {
    exists recs {:trigger Pushes(recs)} :: Unstamped(recs) && ProducerPart(steps) <= Pushes(recs)
  }

  lemma {:induction false} PartOfConcat(a: seq<Step>, b: seq<Step>)
    ensures ProducerPart(a + b) == ProducerPart(a) + ProducerPart(b)
    decreases |b|
  {
    if b == [] {
      assert a + b == a;
    } else {
      assert (a + b)[..|a + b| - 1] == a + b[..|b| - 1];
      PartOfConcat(a, b[..|b| - 1]);
    }
  }

  lemma {:induction false} PartOfProducer(steps: seq<Step>)
    requires forall k :: 0 <= k < |steps| ==> OfProducer(steps[k])
    ensures ProducerPart(steps) == steps
  {
    if steps != [] {
      PartOfProducer(steps[..|steps| - 1]);
    }
  }

  lemma {:induction false} PartOfConsumer(steps: seq<Step>)
    requires forall k :: 0 <= k < |steps| ==> !OfProducer(steps[k])
    ensures ProducerPart(steps) == []
  {
    if steps != [] {
      PartOfConsumer(steps[..|steps| - 1]);
    }
  }

  lemma {:induction false} InPart(steps: seq<Step>, k: nat)
    requires k < |steps| && OfProducer(steps[k])
    ensures steps[k] in ProducerPart(steps)
  {
    if k < |steps| - 1 {
      InPart(steps[..|steps| - 1], k);
    }
  }

  lemma {:induction false} PushesConcat(a: seq<Record>, b: seq<Record>)
    ensures Pushes(a + b) == Pushes(a) + Pushes(b)
    decreases |b|
  {
    if b == [] {
      assert a + b == a;
    } else {
      assert (a + b)[..|a + b| - 1] == a + b[..|b| - 1];
      PushesConcat(a, b[..|b| - 1]);
    }
  }

  lemma PushesOne(rec: Record)
    ensures Pushes([rec]) == PushSteps(rec)
  {
    assert [rec][..0] == [] && Pushes([rec][..0]) == [];
  }

  /** A step of the producer that leaves no sequence word other than zero. */
  predicate Harmless(step: Step) {
    OfProducer(step) && (step.Store? && step.i == SEQ_WORD ==> step.w == 0)
  }

  lemma {:induction false} FillsAreHarmless(rec: Record, n: nat)
    requires n <= RECORD_WORDS && rec[SEQ_WORD] == 0
    ensures |FillSteps(rec, n)| == n
    ensures forall step :: step in FillSteps(rec, n) ==> Harmless(step)
  {
    if n > 0 {
      FillsAreHarmless(rec, n - 1);
    }
  }

  lemma {:induction false} PushesAreHarmless(recs: seq<Record>)
    requires Unstamped(recs)
    ensures forall step :: step in Pushes(recs) ==> Harmless(step)
  {
    if recs != [] {
      PushesAreHarmless(recs[..|recs| - 1]);
      FillsAreHarmless(recs[|recs| - 1], RECORD_WORDS);
    }
  }

  lemma PushesAreZeroStamped(steps: seq<Step>)
    requires PushesOnly(steps)
    ensures ZeroStamped(steps)
  {
    var recs :| Unstamped(recs) && ProducerPart(steps) <= Pushes(recs);
    PushesAreHarmless(recs);
    forall k | 0 <= k < |steps| && steps[k].Store? && steps[k].i == SEQ_WORD ensures steps[k].w == 0 {
      InPart(steps, k);
      assert steps[k] in Pushes(recs);
    }
  }

  // ------------------------------------------------------------------------------------------------
  // Runs of pushes
  // ------------------------------------------------------------------------------------------------

  /** Where nothing but the slots differs. */
  predicate OnlySlots(st: State, now: State) {
    now == st.(slots := now.slots) && now.Capacity() == st.Capacity()
  }

  lemma {:induction false} FillsOnlySlots(st: State, rec: Record, n: nat)
    requires n <= RECORD_WORDS && st.phase.Filling?
    ensures OnlySlots(st, Run(st, FillSteps(rec, n)))
  {
    if n > 0 {
      FillsOnlySlots(st, rec, n - 1);
      RunSnoc(st, FillSteps(rec, n - 1), Store(n - 1, rec[n - 1]));
    }
  }

  /** The ring `n` publications on, with no slot open. */
  predicate Advanced(st: State, now: State, n: nat) {
    && now.next == now.cursor == st.next + n && now.phase.Idle? && !now.touched && now.Capacity() == st.Capacity()
    && now.pc == st.pc && now.want == st.want && now.start == st.start && now.events == st.events
  }

  lemma PushesOn(st: State, rec: Record)
    requires st.phase.Idle? && st.next < SEQ_IN_PROGRESS
    ensures Advanced(st, Run(st, PushSteps(rec)), 1)
  {
    var open := Apply(st, Claim);
    RunOne(st, Claim);
    RunConcat(st, [Claim], FillSteps(rec, RECORD_WORDS));
    FillsOnlySlots(open, rec, RECORD_WORDS);
    RunSnoc(st, [Claim] + FillSteps(rec, RECORD_WORDS), Stamp);
    RunSnoc(st, [Claim] + FillSteps(rec, RECORD_WORDS) + [Stamp], Publish);
  }

  lemma {:induction false} PushesMany(st: State, recs: seq<Record>)
    requires st.phase.Idle? && !st.touched && st.cursor == st.next && st.next + |recs| <= SEQ_IN_PROGRESS
    ensures Advanced(st, Run(st, Pushes(recs)), |recs|)
  {
    if recs != [] {
      var init, last := recs[..|recs| - 1], recs[|recs| - 1];
      PushesMany(st, init);
      RunConcat(st, Pushes(init), PushSteps(last));
      PushesOn(Run(st, Pushes(init)), last);
    }
  }

  /** A fresh record, every word zero but the first. */
  function Marked(w: Word): (rec: Record)
    ensures rec[SEQ_WORD] == 0
  {
    seq(RECORD_WORDS, i => if i == 0 then w else 0)
  }

  function WaitingSteps(rec: Record): seq<Step> {
    [Attach] + PushSteps(rec) + [LoadCursor] + [LoadSeq]
  }

  /** A consumer that attached before anything was published and has just matched sequence 0. */
  predicate MatchedZero(st: State, capacity: nat) {
    && st.pc == Copying(map[]) && st.want == st.start == 0 && st.events == [] && st.Capacity() == capacity
    && st.phase.Idle? && !st.touched && st.cursor == st.next == 1
  }

  lemma WaitsOnZero(boot: State, rec: Record)
    requires Booted(boot)
    ensures MatchedZero(Run(boot, WaitingSteps(rec)), boot.Capacity())
  {
    FirstPush(boot, rec);
    MatchesZero(boot, [Attach] + PushSteps(rec));
  }

  lemma WaitingPart(rec: Record)
    requires rec[SEQ_WORD] == 0
    ensures ProducerPart(WaitingSteps(rec)) == Pushes([rec])
  {
    PartBetween(PushSteps(rec));
    PushesOne(rec);
    PartOfPushes([rec]);
  }

  lemma FirstPush(boot: State, rec: Record)
    requires Booted(boot)
    ensures var st := Run(boot, [Attach] + PushSteps(rec));
            st.pc == Ready && st.want == st.start == 0 && st.events == [] && st.Capacity() == boot.Capacity() &&
            st.phase.Idle? && !st.touched && st.cursor == st.next == 1
  {
    RunConcat(boot, [Attach], PushSteps(rec));
    RunOne(boot, Attach);
    PushesOn(Apply(boot, Attach), rec);
  }

  lemma MatchesZero(boot: State, pushed: seq<Step>)
    requires Booted(boot)
    requires var st := Run(boot, pushed); st.pc == Ready && st.want == 0 && st.cursor == st.next == 1 && !st.touched
    ensures Run(boot, pushed + [LoadCursor] + [LoadSeq]) == Run(boot, pushed).(pc := Copying(map[]))
  {
    RunResident(boot, pushed, 0);
    RunShaped(boot, pushed);
    RunSnoc(boot, pushed, LoadCursor);
    RunSnoc(boot, pushed + [LoadCursor], LoadSeq);
  }

  /** Loads in front of the producer's steps and behind them are not its share. */
  lemma PartBetween(push: seq<Step>)
    ensures ProducerPart([Attach] + push + [LoadCursor] + [LoadSeq]) == ProducerPart(push)
  {
    PartOfConcat([Attach] + push + [LoadCursor], [LoadSeq]);
    PartOfConcat([Attach] + push, [LoadCursor]);
    PartOfConcat([Attach], push);
    PartOfConsumer([Attach]);
    PartOfConsumer([LoadCursor]);
    PartOfConsumer([LoadSeq]);
  }

  lemma PartOfPushes(recs: seq<Record>)
    requires Unstamped(recs)
    ensures ProducerPart(Pushes(recs)) == Pushes(recs)
  {
    PushesAreHarmless(recs);
    forall k | 0 <= k < |Pushes(recs)| ensures OfProducer(Pushes(recs)[k]) {
      assert Pushes(recs)[k] in Pushes(recs);
    }
    PartOfProducer(Pushes(recs));
  }

  /** The producer has come round to slot 0 again and has copied the first two words of its next record. */
  function HalfRewritten(st: State, w: Word): State {
    Apply(Apply(Apply(st, Claim), Store(0, w)), Store(SEQ_WORD, 0))
  }

  lemma TearsOpen(st: State, w: Word)
    requires st.phase.Idle? && st.next == st.Capacity() < SEQ_IN_PROGRESS && st.want == 0
    ensures var now := HalfRewritten(st, w);
            now == st.(slots := now.slots, phase := Filling, touched := true) &&
            now.Capacity() == st.Capacity() && now.slots[0][0] == w && now.SeqOf(0) == 0
  {
    assert st.Capacity() % st.Capacity() == 0;
  }

  lemma RunThree(st: State, a: Step, b: Step, c: Step)
    ensures Run(st, [a, b, c]) == Apply(Apply(Apply(st, a), b), c)
  {
    RunOne(st, a);
    RunSnoc(st, [a], b);
    RunSnoc(st, [a] + [b], c);
    assert [a] + [b] + [c] == [a, b, c];
  }

  lemma HandsOverTheTear(st: State)
    requires st.pc == Copying(map[]) && st.want == 0 && st.SeqOf(0) == 0 && st.events == []
    ensures var now := Run(st, CopySteps(RECORD_WORDS) + [Recheck]);
            now.events == [Delivered(0, st.slots[st.Slot(0)])] && now.log == st.log && now.start == st.start
  {
    CopyingRun(st, RECORD_WORDS);
    RunSnoc(st, CopySteps(RECORD_WORDS), Recheck);
    DeliversTorn(st);
  }

  lemma DeliversTorn(st: State)
    requires st.pc == Copying(map[]) && st.want == 0 && st.SeqOf(0) == 0 && st.events == []
    ensures var now := Apply(Copied(st, RECORD_WORDS), Recheck);
            now.events == [Delivered(0, st.slots[st.Slot(0)])] && now.log == st.log && now.start == st.start
  {
    DeliversCopy(st);
  }

  /** The consumer is about to copy record 0 and the producer about to rewrite its slot. */
  ghost predicate Poised(st: State) {
    && Shaped(st) && st.pc == Copying(map[]) && st.want == st.start == 0 && st.events == []
    && st.phase.Idle? && st.next == st.Capacity() < SEQ_IN_PROGRESS
  }

  function Fresh(n: nat): (recs: seq<Record>)
    ensures |recs| == n && Unstamped(recs)
  {
    seq(n, _ => Marked(0))
  }

  lemma GoesRound(boot: State, matched: seq<Step>, lap: seq<Record>)
    requires Booted(boot) && boot.Capacity() < SEQ_IN_PROGRESS && |lap| == boot.Capacity() - 1
    requires MatchedZero(Run(boot, matched), boot.Capacity())
    ensures Poised(Run(boot, matched + Pushes(lap)))
  {
    PushesMany(Run(boot, matched), lap);
    RunConcat(boot, matched, Pushes(lap));
    RunShaped(boot, matched + Pushes(lap));
  }

  lemma LapPart(matched: seq<Step>, rec: Record, lap: seq<Record>)
    requires ProducerPart(matched) == Pushes([rec]) && Unstamped(lap)
    ensures ProducerPart(matched + Pushes(lap)) == Pushes([rec] + lap)
  {
    PartOfConcat(matched, Pushes(lap));
    PartOfPushes(lap);
    PushesConcat([rec], lap);
  }

  lemma LapsAround(boot: State) returns (steps: seq<Step>, recs: seq<Record>)
    requires Booted(boot) && boot.Capacity() < SEQ_IN_PROGRESS
    ensures Unstamped(recs) && ProducerPart(steps) == Pushes(recs) && Poised(Run(boot, steps))
  {
    var rec, lap := Marked(0), Fresh(boot.Capacity() - 1);
    steps, recs := WaitingSteps(rec) + Pushes(lap), [rec] + lap;
    WaitsOnZero(boot, rec);
    GoesRound(boot, WaitingSteps(rec), lap);
    WaitingPart(rec);
    LapPart(WaitingSteps(rec), rec, lap);
  }

  /** The next push has gone as far as its second word. */
  lemma OpensTear(st: State, w: Word) returns (steps: seq<Step>, torn: State)
    requires Poised(st)
    ensures ProducerPart(steps) == steps && steps <= PushSteps(Marked(w)) && Run(st, steps) == torn
    ensures torn.pc == Copying(map[]) && torn.want == torn.start == 0 && torn.events == [] && torn.log == st.log
    ensures torn.SeqOf(0) == 0 && torn.slots[torn.Slot(0)][0] == w
  {
    steps := [Claim, Store(0, w), Store(SEQ_WORD, 0)];
    torn := HalfRewritten(st, w);
    TearsOpen(st, w);
    RunThree(st, Claim, Store(0, w), Store(SEQ_WORD, 0));
    PartOfProducer(steps);
    OpensPush(w);
  }

  lemma {:induction false} FillsBegin(rec: Record, m: nat, n: nat)
    requires m <= n <= RECORD_WORDS
    ensures FillSteps(rec, m) <= FillSteps(rec, n)
    decreases n
  {
    if m < n {
      FillsBegin(rec, m, n - 1);
    }
  }

  lemma OpensPush(w: Word)
    ensures [Claim, Store(0, w), Store(SEQ_WORD, 0)] <= PushSteps(Marked(w))
  {
    var rec := Marked(w);
    assert FillSteps(rec, 0) == [] && FillSteps(rec, 1) == [Store(0, w)];
    assert FillSteps(rec, 2) == [Store(0, w), Store(SEQ_WORD, 0)];
    FillsBegin(rec, 2, RECORD_WORDS);
    assert [Claim] + FillSteps(rec, 2) == [Claim, Store(0, w), Store(SEQ_WORD, 0)];
  }

  lemma {:induction false} CopiesAreLoads(n: nat)
    ensures forall k :: 0 <= k < |CopySteps(n)| ==> !OfProducer(CopySteps(n)[k])
  {
    if n > 0 {
      CopiesAreLoads(n - 1);
    }
  }

  lemma PartBefore(opening: seq<Step>, copying: seq<Step>)
    requires copying == CopySteps(RECORD_WORDS) + [Recheck]
    ensures ProducerPart(opening + copying) == ProducerPart(opening)
  {
    PartOfConcat(opening, copying);
    CopiesAreLoads(RECORD_WORDS);
    PartOfConsumer(copying);
  }

  lemma Tears(st: State) returns (steps: seq<Step>, rec: Record)
    requires Poised(st)
    ensures rec[SEQ_WORD] == 0 && ProducerPart(steps) <= PushSteps(rec)
    ensures Run(st, steps).start == 0 && !Intact(Run(st, steps))
  {
    var w := if st.log[0][0] == 0 then 1 else 0;
    var opening, torn := OpensTear(st, w);
    var copying := CopySteps(RECORD_WORDS) + [Recheck];
    steps, rec := opening + copying, Marked(w);
    RunConcat(st, opening, copying);
    HandsOverTheTear(torn);
    TornIsNotIntact(Run(torn, copying), torn.slots[torn.Slot(0)]);
    PartBefore(opening, copying);
  }

  lemma TornIsNotIntact(now: State, out: Record)
    requires now.events == [Delivered(0, out)] && |now.log| > 0 && out != now.log[0]
    ensures !Intact(now)
  {
    assert now.events[0] == Delivered(0, out);
  }

  /** A torn read, for every capacity, with a producer that does nothing but push fresh records: record 0 is
    * matched, the producer laps the ring, and the next push leaves 0 in the sequence word before the copy is
    * checked. */
  lemma TornAtZero(boot: State) returns (steps: seq<Step>)
    requires Booted(boot) && boot.Capacity() < SEQ_IN_PROGRESS
    ensures PushesOnly(steps) && ZeroStamped(steps) && Run(boot, steps).start == 0 && !Intact(Run(boot, steps))
  {
    var before, recs := LapsAround(boot);
    var after, rec := Tears(Run(boot, before));
    steps := before + after;
    RunConcat(boot, before, after);
    PartOfConcat(before, after);
    PushesConcat(recs, [rec]);
    PushesOne(rec);
    assert Unstamped(recs + [rec]) && ProducerPart(steps) <= Pushes(recs + [rec]);
    PushesAreZeroStamped(steps);
  }

  /** As `NeverTorn`, over the runs of a producer that only pushes. */
  ghost predicate NeverTornByPush(capacity: nat, from: nat) {
    forall boot: State, steps: seq<Step> ::
      Booted(boot) && boot.Capacity() == capacity && PushesOnly(steps) && Run(boot, steps).start == from ==>
        Intact(Run(boot, steps))
  }

  /** With fills that leave zero in the sequence word no record is ever handed over torn if and only if the
    * consumer attached after the first record was published, and the same with nothing but pushes. */
  lemma NeverTornIff(capacity: nat, from: nat)
    requires 0 < capacity < SEQ_IN_PROGRESS
    ensures NeverTorn(capacity, from) <==> from > 0
    ensures NeverTornByPush(capacity, from) <==> from > 0
  {
    if from == 0 {
      var boot: State := RawState(seq(capacity, _ => seq(RECORD_WORDS, _ => 0)), 0, 0, Idle, false, [],
        Detached, 0, 0, []);
      var steps := TornAtZero(boot);
      assert !NeverTorn(capacity, 0) && !NeverTornByPush(capacity, 0);
    } else {
      forall boot: State, steps: seq<Step> |
        Booted(boot) && boot.Capacity() == capacity && ZeroStamped(steps) && Run(boot, steps).start == from
        ensures Intact(Run(boot, steps))
      {
        LaterAttachIsSafe(boot, steps);
      }
      forall boot: State, steps: seq<Step> |
        Booted(boot) && boot.Capacity() == capacity && PushesOnly(steps) && Run(boot, steps).start == from
        ensures Intact(Run(boot, steps))
      {
        PushesAreZeroStamped(steps);
      }
    }
  }
}

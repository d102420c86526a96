/** The record handed to `push` is the record published, and the record a consumer is handed. */
module RingPush {
  import opened RingProtocol
  import opened RingDelivery
  import opened RingTornRead

  /** A record as it is published under `number`. */
  function StampedAs(rec: Record, number: Word): Record {
    rec[SEQ_WORD := number]
  }

  // ------------------------------------------------------------------------------------------------
  // One push
  // ------------------------------------------------------------------------------------------------

  /** The open slot holds the first `n` words of the record; the other slots are as they were. */
  predicate Filled(st: State, now: State, rec: Record, n: nat)
    requires n <= RECORD_WORDS
  {
    && now == st.(slots := now.slots) && now.Capacity() == st.Capacity()
    && (forall i :: 0 <= i < n ==> now.slots[now.Slot(now.next)][i] == rec[i])
    && (forall j :: 0 <= j < st.Capacity() && j != st.Slot(st.next) ==> now.slots[j] == st.slots[j])
  }

  lemma FillsNext(st: State, mid: State, rec: Record, n: nat)
    requires n < RECORD_WORDS && st.phase.Filling? && Filled(st, mid, rec, n)
    ensures Filled(st, Apply(mid, Store(n, rec[n])), rec, n + 1)
  {
  }

  lemma FillSnoc(st: State, rec: Record, n: nat)
    requires 0 < n <= RECORD_WORDS
    ensures Run(st, FillSteps(rec, n)) == Apply(Run(st, FillSteps(rec, n - 1)), Store(n - 1, rec[n - 1]))
  {
    RunSnoc(st, FillSteps(rec, n - 1), Store(n - 1, rec[n - 1]));
  }

  lemma {:induction false} FillsTo(st: State, rec: Record, n: nat)
    requires n <= RECORD_WORDS && st.phase.Filling?
    ensures Filled(st, Run(st, FillSteps(rec, n)), rec, n)
  {
    if n > 0 {
      FillsTo(st, rec, n - 1);
      FillSnoc(st, rec, n);
      FillsNext(st, Run(st, FillSteps(rec, n - 1)), rec, n - 1);
    }
  }

  lemma StampsSlot(open: State, rec: Record)
    requires open.phase.Filling? && open.next < SEQ_IN_PROGRESS && open.slots[open.Slot(open.next)] == rec
    ensures var now := Apply(Apply(open, Stamp), Publish);
            && now.slots == open.slots[open.Slot(open.next) := StampedAs(rec, open.next)]
            && now.log == open.log + [StampedAs(rec, open.next)]
            && now.next == open.next + 1 && now.phase.Idle?
  {
  }

  lemma PushUnfolds(st: State, rec: Record)
    ensures Run(st, PushSteps(rec)) ==
            Apply(Apply(Run(Apply(st, Claim), FillSteps(rec, RECORD_WORDS)), Stamp), Publish)
  {
    RunOne(st, Claim);
    RunConcat(st, [Claim], FillSteps(rec, RECORD_WORDS));
    RunSnoc(st, [Claim] + FillSteps(rec, RECORD_WORDS), Stamp);
    RunSnoc(st, [Claim] + FillSteps(rec, RECORD_WORDS) + [Stamp], Publish);
  }

  /** A push puts the record, word for word and stamped, into slot `next mod capacity`, touches no other slot,
    * and publishes exactly that. */
  lemma PushPublishes(st: State, rec: Record)
    requires st.phase.Idle? && st.next < SEQ_IN_PROGRESS
    ensures var now := Run(st, PushSteps(rec));
            && now.slots == st.slots[st.next % st.Capacity() := StampedAs(rec, st.next)]
            && now.log == st.log + [StampedAs(rec, st.next)]
            && now.next == st.next + 1 && now.phase.Idle?
  {
    var claimed := Apply(st, Claim);
    var open := Run(claimed, FillSteps(rec, RECORD_WORDS));
    PushUnfolds(st, rec);
    FillsTo(claimed, rec, RECORD_WORDS);
    assert open.slots[open.Slot(open.next)] == rec;
    StampsSlot(open, rec);
    var j, stamped := st.Slot(st.next), StampedAs(rec, st.next);
    assert open.slots[j := stamped] == st.slots[j := stamped];
  }

  // ------------------------------------------------------------------------------------------------
  // Pushes among a consumer's loads
  // ------------------------------------------------------------------------------------------------

  /** What the producer's steps read and write. */
  predicate SameForProducer(a: State, b: State) {
    && a.slots == b.slots && a.cursor == b.cursor && a.next == b.next && a.phase == b.phase
    && a.touched == b.touched && a.log == b.log
  }

  lemma ProducerAlone(a: State, b: State, step: Step)
    requires SameForProducer(a, b)
    ensures SameForProducer(Apply(a, step), if OfProducer(step) then Apply(b, step) else b)
  {
  }

  /** The consumer's loads make no difference to what the producer has done. */
  lemma {:induction false} RunOfPart(boot: State, steps: seq<Step>)
    ensures SameForProducer(Run(boot, steps), Run(boot, ProducerPart(steps)))
  {
    if steps != [] {
      var init, last := steps[..|steps| - 1], steps[|steps| - 1];
      RunOfPart(boot, init);
      ProducerAlone(Run(boot, init), Run(boot, ProducerPart(init)), last);
      if OfProducer(last) {
        RunSnoc(boot, ProducerPart(init), last);
      } else {
        assert ProducerPart(init) + [] == ProducerPart(init);
      }
    }
  }

  lemma LogKept(st: State, step: Step)
    ensures st.log <= Apply(st, step).log
  {
  }

  lemma PrefixChain(a: seq<Record>, b: seq<Record>, c: seq<Record>)
    requires a <= b && b <= c
    ensures a <= c
  {
  }

  lemma {:induction false} LogGrows(st: State, steps: seq<Step>)
    ensures st.log <= Run(st, steps).log
  {
    if steps != [] {
      var mid := Run(st, steps[..|steps| - 1]);
      LogGrows(st, steps[..|steps| - 1]);
      LogKept(mid, steps[|steps| - 1]);
      PrefixChain(st.log, mid.log, Apply(mid, steps[|steps| - 1]).log);
    }
  }

  /** The records as they are published one after another on a fresh segment. */
  function Published(recs: seq<Record>): (log: seq<Record>)
    requires |recs| <= SEQ_IN_PROGRESS
    ensures |log| == |recs|
  {
    seq(|recs|, s requires 0 <= s < |recs| => StampedAs(recs[s], s))
  }

  /** As many pushes as there are sequences to give. */
  function Room(recs: seq<Record>): (n: nat)
    ensures n <= |recs| && n <= SEQ_IN_PROGRESS
  {
    if |recs| <= SEQ_IN_PROGRESS then |recs| else SEQ_IN_PROGRESS
  }

  lemma {:induction false} FillsNothing(st: State, rec: Record, n: nat)
    requires n <= RECORD_WORDS && st.phase.Idle?
    ensures Run(st, FillSteps(rec, n)) == st
  {
    if n > 0 {
      FillsNothing(st, rec, n - 1);
      RunSnoc(st, FillSteps(rec, n - 1), Store(n - 1, rec[n - 1]));
    }
  }

  lemma PushesNothing(st: State, rec: Record)
    requires st.phase.Idle? && st.next >= SEQ_IN_PROGRESS
    ensures Run(st, PushSteps(rec)) == st
  {
    PushUnfolds(st, rec);
    FillsNothing(st, rec, RECORD_WORDS);
  }

  lemma PublishedNext(init: seq<Record>, last: Record)
    requires |init| < SEQ_IN_PROGRESS
    ensures Published(init + [last]) == Published(init) + [StampedAs(last, |init|)]
  {
  }

  lemma RoomNext(init: seq<Record>, last: Record)
    ensures Room(init) < SEQ_IN_PROGRESS ==>
              init[..Room(init)] == init && (init + [last])[..Room(init + [last])] == init + [last]
    ensures Room(init) == SEQ_IN_PROGRESS ==> Room(init + [last]) == Room(init)
    ensures Room(init) == SEQ_IN_PROGRESS ==> init[..Room(init)] == (init + [last])[..Room(init)]
  {
  }

  /** What pushes on a fresh segment leave. */
  predicate HasPublished(st: State, recs: seq<Record>) {
    st.phase.Idle? && st.next == Room(recs) && st.log == Published(recs[..Room(recs)])
  }

  lemma PublishesNext(st: State, init: seq<Record>, last: Record)
    requires HasPublished(st, init)
    ensures HasPublished(Run(st, PushSteps(last)), init + [last])
  {
    RoomNext(init, last);
    if st.next < SEQ_IN_PROGRESS {
      PushPublishes(st, last);
      PublishedNext(init, last);
    } else {
      PushesNothing(st, last);
    }
  }

  lemma PushesSnoc(boot: State, recs: seq<Record>)
    requires recs != []
    ensures Run(boot, Pushes(recs)) == Run(Run(boot, Pushes(recs[..|recs| - 1])), PushSteps(recs[|recs| - 1]))
  {
    RunConcat(boot, Pushes(recs[..|recs| - 1]), PushSteps(recs[|recs| - 1]));
  }

  lemma {:induction false} PushesPublish(boot: State, recs: seq<Record>)
    requires Booted(boot)
    ensures HasPublished(Run(boot, Pushes(recs)), recs)
  {
    if recs != [] {
      var init, last := recs[..|recs| - 1], recs[|recs| - 1];
      PushesPublish(boot, init);
      PushesSnoc(boot, recs);
      PublishesNext(Run(boot, Pushes(init)), init, last);
      assert init + [last] == recs;
    }
  }

  /** However the loads of a consumer fall among the pushes, what is published under `s` is the `s`-th record
    * pushed. */
  lemma PublishedIsPushed(boot: State, steps: seq<Step>, recs: seq<Record>, s: nat)
    requires Booted(boot) && ProducerPart(steps) <= Pushes(recs) && s < |Run(boot, steps).log|
    ensures s < |recs| && s < SEQ_IN_PROGRESS && Run(boot, steps).log[s] == StampedAs(recs[s], s)
  {
    var part := ProducerPart(steps);
    var rest := Pushes(recs)[|part|..];
    assert Pushes(recs) == part + rest;
    RunOfPart(boot, steps);
    RunConcat(boot, part, rest);
    LogGrows(Run(boot, part), rest);
    PushesPublish(boot, recs);
  }

  /** What is handed over under a sequence is the record pushed under it, in every interleaving of pushes with a
    * consumer's loads in which no record pushed carries that sequence already. */
  lemma DeliveredIsPushed(boot: State, steps: seq<Step>, recs: seq<Record>, s: nat, k: nat)
    requires Booted(boot) && ProducerPart(steps) <= Pushes(recs) && Unforged(steps, s)
    requires var st := Run(boot, steps); k < |st.events| && st.events[k].Delivered? && st.events[k].number == s
    ensures s < |recs| && s < SEQ_IN_PROGRESS && Run(boot, steps).events[k].out == StampedAs(recs[s], s)
  {
    var st := Run(boot, steps);
    assert ReachableUnforged(st, s);
    NoTornRead(st, s, k);
    PublishedIsPushed(boot, steps, recs, s);
  }

  /** With fresh records, whose sequence word is zero, that is every sequence but the first: `out` is `recs[s]`
    * in every word but the sequence word, and that is `s`. */
  lemma FreshIsDelivered(boot: State, steps: seq<Step>, recs: seq<Record>, s: nat, k: nat)
    requires Booted(boot) && Unstamped(recs) && ProducerPart(steps) <= Pushes(recs) && s > 0
    requires var st := Run(boot, steps); k < |st.events| && st.events[k].Delivered? && st.events[k].number == s
    ensures s < |recs| && |Run(boot, steps).events[k].out| == 80 && Run(boot, steps).events[k].out[1] == s
    ensures forall i :: 0 <= i < 80 && i != 1 ==> Run(boot, steps).events[k].out[i] == recs[s][i]
  {
    PushesAreZeroStamped(steps);
    assert Unforged(steps, s);
    DeliveredIsPushed(boot, steps, recs, s, k);
  }
}

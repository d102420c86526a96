/** The consumer that an abandoned fill leaves stuck, reached from a fresh segment.
  *
  * A claimed slot may be dropped without being committed. Its old record is gone by then, and a consumer
  * exactly a lap behind was owed that record.
  */
module RingAbandoned {
  import opened Words
  import opened RingProtocol
  import opened RingDelivery
  import opened RingTornRead

  /** Every further call of `try_recv` answers `Lagged(0)` at the sequence the consumer stands at. */
  ghost predicate Stuck(st: State) {
    st.want < st.cursor && forall n: nat :: Calls(st, n) == st.(events := st.events + EmptyNotices(st.want, n))
  }

  /** The next slot is claimed and dropped, nothing having been stored in it. */
  function Dropped(st: State): State {
    Apply(Apply(st, Claim), Abandon)
  }

  lemma DroppedIs(st: State)
    requires st.phase.Idle? && st.next < SEQ_IN_PROGRESS
    ensures Dropped(st) == st.(slots := PutWord(st, SEQ_WORD, SEQ_IN_PROGRESS), touched := true)
  {
  }

  lemma DroppedSpoils(st: State)
    requires st.phase.Idle? && st.want + st.Capacity() == st.next < SEQ_IN_PROGRESS
    ensures Dropped(st).SeqOf(st.want) != st.want
  {
    DroppedIs(st);
    ResidueOfLap(st.want, st.Capacity());
  }

  /** From wherever a consumer is exactly a lap behind, a fill that is dropped leaves it stuck. */
  lemma DroppedFillSticks(st: State)
    requires st.phase.Idle? && st.want + st.Capacity() == st.next == st.cursor < SEQ_IN_PROGRESS
    ensures Stuck(Dropped(st))
  {
    DroppedIs(st);
    DroppedSpoils(st);
    forall n: nat ensures Calls(Dropped(st), n) == Dropped(st).(events := st.events + EmptyNotices(st.want, n)) {
      StuckForever(Dropped(st), n);
    }
  }

  const PUBLISH_ONE: seq<Step> := [Claim, Stamp, Publish]

  function PublishMany(n: nat): seq<Step> {
    if n == 0 then [] else PublishMany(n - 1) + PUBLISH_ONE
  }

  lemma PublishOne(st: State)
    requires st.phase.Idle? && st.next < SEQ_IN_PROGRESS
    ensures var now := Run(st, PUBLISH_ONE);
            now.next == now.cursor == st.next + 1 && now.phase.Idle? && !now.touched &&
            now.Capacity() == st.Capacity() &&
            now.pc == st.pc && now.want == st.want && now.start == st.start && now.events == st.events
  {
    assert PUBLISH_ONE == ([] + [Claim] + [Stamp]) + [Publish];
    RunSnoc(st, [] + [Claim] + [Stamp], Publish);
    RunSnoc(st, [] + [Claim], Stamp);
    RunSnoc(st, [], Claim);
  }

  lemma {:induction false} PublishesMany(st: State, n: nat)
    requires st.phase.Idle? && !st.touched && st.cursor == st.next && st.next + n <= SEQ_IN_PROGRESS
    ensures var now := Run(st, PublishMany(n));
            now.next == now.cursor == st.next + n && now.phase.Idle? && !now.touched &&
            now.Capacity() == st.Capacity() &&
            now.pc == st.pc && now.want == st.want && now.start == st.start && now.events == st.events
  {
    if n > 0 {
      PublishesMany(st, n - 1);
      RunConcat(st, PublishMany(n - 1), PUBLISH_ONE);
      PublishOne(Run(st, PublishMany(n - 1)));
    }
  }

  lemma {:induction false} StoreFree(n: nat)
    ensures forall k :: 0 <= k < |PublishMany(n)| ==> !PublishMany(n)[k].Store?
  {
    if n > 0 {
      StoreFree(n - 1);
    }
  }

  /** A consumer that attached to the fresh segment and has read nothing of the first lap. */
  lemma FirstLap(boot: State)
    requires Booted(boot) && boot.Capacity() < SEQ_IN_PROGRESS
    ensures var st := Run(boot, [Attach] + PublishMany(boot.Capacity()));
            st.Capacity() == boot.Capacity() && st.phase.Idle? && st.pc.Ready? && st.events == [] &&
            st.want == 0 && st.next == st.cursor == st.Capacity()
  {
    RunConcat(boot, [Attach], PublishMany(boot.Capacity()));
    RunOne(boot, Attach);
    PublishesMany(Apply(boot, Attach), boot.Capacity());
  }

  function AbandonedRun(capacity: nat): seq<Step> {
    [Attach] + PublishMany(capacity) + [Claim] + [Abandon]
  }

  /** Whatever the capacity, the stuck consumer is reached: it attaches, one lap is published, and the next
    * fill is dropped. No fill of this run stores a word. */
  lemma StuckIsReached(boot: State)
    requires Booted(boot) && boot.Capacity() < SEQ_IN_PROGRESS
    ensures var st := Run(boot, AbandonedRun(boot.Capacity()));
            ReachableUnforged(st, 0) && st.phase.Idle? && st.pc.Ready? && st.touched && st.want == 0 &&
            st.cursor == st.next == st.Capacity() && Stuck(st) && !ReachesCursor(st)
  {
    var lap, steps := [Attach] + PublishMany(boot.Capacity()), AbandonedRun(boot.Capacity());
    var before := Run(boot, lap);
    FirstLap(boot);
    assert Run(boot, steps) == Dropped(before) by {
      RunSnoc(boot, lap, Claim);
      RunSnoc(boot, lap + [Claim], Abandon);
    }
    DroppedIs(before);
    DroppedFillSticks(before);
    assert Unforged(steps, 0) by { StoreFree(boot.Capacity()); }
    StuckStays(Dropped(before));
  }

  lemma StuckStays(st: State)
    requires Stuck(st)
    ensures !ReachesCursor(st)
  {
    forall n: nat ensures Calls(st, n).want != st.cursor {
      assert Calls(st, n) == st.(events := st.events + EmptyNotices(st.want, n));
    }
  }

  // ------------------------------------------------------------------------------------------------
  // The one abandoned fill that is not noticed
  // ------------------------------------------------------------------------------------------------

  /** A dropped fill that stored its first word and the zero of a fresh header. */
  function DroppedHalf(st: State, w: Word): State {
    Apply(HalfRewritten(st, w), Abandon)
  }

  function ForgedRun(capacity: nat, w: Word): seq<Step> {
    [Attach] + PublishMany(capacity) + [Claim, Store(0, w), Store(SEQ_WORD, 0)] + [Abandon]
  }

  lemma ForgedIs(st: State, w: Word)
    requires st.phase.Idle? && st.next == st.Capacity() < SEQ_IN_PROGRESS && st.want == 0
    ensures var now := DroppedHalf(st, w);
            now == st.(slots := now.slots, touched := true) && now.Capacity() == st.Capacity() &&
            now.slots[0][0] == w && now.SeqOf(0) == 0
  {
    TearsOpen(st, w);
  }

  lemma ForgedRunIs(boot: State, w: Word)
    ensures Run(boot, ForgedRun(boot.Capacity(), w)) ==
              DroppedHalf(Run(boot, [Attach] + PublishMany(boot.Capacity())), w)
  {
    var lap, half := [Attach] + PublishMany(boot.Capacity()), [Claim, Store(0, w), Store(SEQ_WORD, 0)];
    RunSnoc(boot, lap + half, Abandon);
    RunConcat(boot, lap, half);
    RunThree(Run(boot, lap), Claim, Store(0, w), Store(SEQ_WORD, 0));
  }

  /** Whatever the capacity: record 0 is owed, its slot is claimed, half rewritten and dropped, and the next
    * call hands the ruin over as record 0. */
  lemma ForgedIsReached(boot: State) returns (w: Word)
    requires Booted(boot) && boot.Capacity() < SEQ_IN_PROGRESS
    ensures var st := Run(boot, ForgedRun(boot.Capacity(), w));
            Reachable(st) && st.phase.Idle? && st.pc.Ready? && Spoilt(st) && Forged(st) && |st.log| > 0 &&
            st.slots[0] != st.log[0] && Calls(st, 1).events == [Delivered(0, st.slots[0])]
  {
    var before := Run(boot, [Attach] + PublishMany(boot.Capacity()));
    FirstLap(boot);
    RunShaped(boot, [Attach] + PublishMany(boot.Capacity()));
    w := if before.log[0][0] == 0 then 1 else 0;
    ForgedRunIs(boot, w);
    ForgedIs(before, w);
    HandsOverTheRuin(boot, ForgedRun(boot.Capacity(), w));
  }

  lemma HandsOverTheRuin(boot: State, steps: seq<Step>)
    requires Booted(boot)
    requires var st := Run(boot, steps);
             st.touched && st.want == 0 && st.next == st.Capacity() && st.SeqOf(0) == 0 && st.events == []
    ensures var st := Run(boot, steps);
            Spoilt(st) && Forged(st) && Calls(st, 1).events == [Delivered(0, st.slots[0])]
  {
    var st := Run(boot, steps);
    RunShaped(boot, steps);
    ForgedIsTakenIn(st);
    assert LagNotice(st) == [] && [] + [] == st.events + LagNotice(st);
  }
}

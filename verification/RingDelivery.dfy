/** What a consumer hears over a run: nothing twice, nothing out of order, nothing readable left out. */
module RingDelivery {
  import opened RingProtocol

  // ------------------------------------------------------------------------------------------------
  // Accounting for every sequence
  // ------------------------------------------------------------------------------------------------

  /** The sequence a consumer attached at `start` stands at after hearing `events`. */
  function Position(start: nat, events: seq<Event>): (p: nat)
    ensures p >= start
  {
    if events == [] then start
    else
      var before := Position(start, events[..|events| - 1]);
      match events[|events| - 1]
      case Delivered(_, _) => before + 1
      case Nothing => before
      case Skipped(_, count) => before + count
  }

  predicate Told(st: State, k: nat)
    requires k < |st.events|
  {
    match st.events[k]
    case Delivered(number, _) => number == Position(st.start, st.events[..k])
    case Nothing => true
    case Skipped(from, count) =>
      from == Position(st.start, st.events[..k]) && (count > 0 ==> from + count + st.Capacity() <= st.cursor)
  }

  predicate Accounted(st: State) {
    Position(st.start, st.events) == st.want && forall k :: 0 <= k < |st.events| ==> Told(st, k)
  }

  lemma PositionAfter(start: nat, events: seq<Event>, e: Event)
    ensures Position(start, events + [e]) ==
            match e
            case Delivered(_, _) => Position(start, events) + 1
            case Nothing => Position(start, events)
            case Skipped(_, count) => Position(start, events) + count
  {
    assert (events + [e])[..|events|] == events;
  }

  /** A step answers at most once, and the answer moves the consumer's position as far as it moves the
    * consumer. */
  lemma EventsGrow(st: State, step: Step)
    requires Shaped(st) && Position(st.start, st.events) == st.want
    ensures var now := Apply(st, step);
            && |st.events| <= |now.events| <= |st.events| + 1 && now.events[..|st.events|] == st.events
            && Position(now.start, now.events) == now.want
            && (|now.events| > |st.events| ==> now.start == st.start && Told(now, |st.events|))
  {
    var now := Apply(st, step);
    if |now.events| > |st.events| {
      assert now.events == st.events + [now.events[|st.events|]];
      PositionAfter(st.start, st.events, now.events[|st.events|]);
    } else {
      assert now.events == st.events;
    }
  }

  lemma StepKeepsAccounts(st: State, step: Step)
    requires Shaped(st) && Accounted(st)
    ensures Accounted(Apply(st, step))
  {
    var now := Apply(st, step);
    EventsGrow(st, step);
    forall k | 0 <= k < |now.events| ensures Told(now, k) {
      assert now.events[..k] == st.events[..k];
      if k < |st.events| {
        assert Told(st, k);
      }
    }
  }

  lemma {:induction false} RunAccounted(boot: State, steps: seq<Step>)
    requires Booted(boot)
    ensures Accounted(Run(boot, steps))
  {
    if steps != [] {
      var init := steps[..|steps| - 1];
      RunShaped(boot, init);
      RunAccounted(boot, init);
      StepKeepsAccounts(Run(boot, init), steps[|steps| - 1]);
    }
  }

  lemma ReachableAccounted(st: State)
    requires Reachable(st)
    ensures Shaped(st) && Accounted(st)
  {
    var boot: State, steps :| Booted(boot) && Run(boot, steps) == st;
    RunShaped(boot, steps);
    RunAccounted(boot, steps);
  }

  function RecordsReceived(events: seq<Event>): nat {
    if events == [] then 0
    else RecordsReceived(events[..|events| - 1]) + (if events[|events| - 1].Delivered? then 1 else 0)
  }

  function RecordsLost(events: seq<Event>): nat {
    if events == [] then 0
    else
      RecordsLost(events[..|events| - 1]) +
      (if events[|events| - 1].Skipped? then events[|events| - 1].count else 0)
  }

  lemma {:induction false} PositionCounts(start: nat, events: seq<Event>)
    ensures Position(start, events) == start + RecordsReceived(events) + RecordsLost(events)
  {
    if events != [] {
      PositionCounts(start, events[..|events| - 1]);
    }
  }

  /** Conservation: in every reachable state the records received and the losses reported add up to the
    * distance travelled since attaching. */
  lemma ReceivedPlusLost(st: State)
    requires Reachable(st)
    ensures st.start + RecordsReceived(st.events) + RecordsLost(st.events) == st.want <= st.cursor
  {
    ReachableAccounted(st);
    PositionCounts(st.start, st.events);
  }

  lemma {:induction false} PositionMonotone(start: nat, events: seq<Event>, i: nat, j: nat)
    requires i <= j <= |events|
    ensures Position(start, events[..i]) <= Position(start, events[..j])
    decreases j
  {
    if i < j {
      assert events[..j][..j - 1] == events[..j - 1];
      PositionMonotone(start, events, i, j - 1);
    }
  }

  lemma DeliveryAdvances(start: nat, events: seq<Event>, i: nat)
    requires i < |events| && events[i].Delivered?
    ensures Position(start, events[..i + 1]) == Position(start, events[..i]) + 1
  {
    assert events[..i + 1][..i] == events[..i];
  }

  lemma DeliveriesApart(start: nat, events: seq<Event>, i: nat, j: nat)
    requires i < j < |events| && events[i].Delivered? && events[j].Delivered?
    ensures start <= Position(start, events[..i]) < Position(start, events[..j]) < Position(start, events)
  {
    DeliveryAdvances(start, events, i);
    DeliveryAdvances(start, events, j);
    PositionMonotone(start, events, i + 1, j);
    PositionMonotone(start, events, j + 1, |events|);
    assert events[..|events|] == events;
  }

  /** The sequences handed over strictly increase, and none is below the attach cursor. */
  lemma DeliveredInOrder(st: State, i: nat, j: nat)
    requires Reachable(st)
    requires i < j < |st.events| && st.events[i].Delivered? && st.events[j].Delivered?
    ensures st.start <= st.events[i].number < st.events[j].number < st.cursor
  {
    ReachableAccounted(st);
    assert Told(st, i) && Told(st, j);
    DeliveriesApart(st.start, st.events, i, j);
  }

  /** A sequence reported lost was more than a lap behind the published cursor, whatever the fills wrote: its
    * slot has been given to a later record, and nothing a full ring can hold is skipped. */
  lemma SkippedLiesBehind(st: State, k: nat, s: nat)
    requires Reachable(st)
    requires k < |st.events| && st.events[k].Skipped?
    requires st.events[k].from <= s < st.events[k].from + st.events[k].count
    ensures s + st.Capacity() < st.cursor
  {
    ReachableAccounted(st);
    assert Told(st, k);
  }

  /** And its slot shows another sequence, unless a fill has written this one there. */
  lemma SkippedWasUnreadable(st: State, k: nat, s: nat)
    requires ReachableUnforged(st, s)
    requires k < |st.events| && st.events[k].Skipped?
    requires st.events[k].from <= s < st.events[k].from + st.events[k].count
    ensures s + st.Capacity() < st.cursor && st.SeqOf(s) != s
  {
    UnforgedInvariant(st, s);
    SkippedLiesBehind(st, k, s);
    ReachableAccounted(st);
  }

  // ------------------------------------------------------------------------------------------------
  // One call of try_recv while the producer stands still
  // ------------------------------------------------------------------------------------------------

  function CopySteps(n: nat): seq<Step> {
    if n == 0 then [] else CopySteps(n - 1) + [CopyWord(n - 1)]
  }

  /** The loads of one call, in program order; those the call does not reach are not enabled. */
  function CallSteps(): seq<Step> {
    [LoadCursor, LoadSeq] + CopySteps(RECORD_WORDS) + [Recheck, Reseat]
  }

  /** What an undisturbed `try_recv` does to the consumer. */
  function Received(st: State): (now: State) {
    if st.want >= st.cursor then st.(events := st.events + [Nothing])
    else if st.cursor - st.want > st.Capacity() || st.SeqOf(st.want) != st.want then
      var want := if st.Oldest() > st.want then st.Oldest() else st.want;
      st.(want := want, events := st.events + [Skipped(st.want, want - st.want)])
    else
      st.(want := st.want + 1, events := st.events + [Delivered(st.want, st.slots[st.Slot(st.want)])])
  }

  lemma {:induction false} RunConcat(st: State, a: seq<Step>, b: seq<Step>)
    ensures Run(st, a + b) == Run(Run(st, a), b)
    decreases |b|
  {
    if b == [] {
      assert a + b == a;
    } else {
      assert (a + b)[..|a + b| - 1] == a + b[..|b| - 1];
      RunConcat(st, a, b[..|b| - 1]);
    }
  }

  lemma RunOne(st: State, step: Step)
    ensures Run(st, [step]) == Apply(st, step)
  {
    assert [step][..0] == [];
    assert Run(st, [step][..0]) == st;
  }

  /** The first `n` words of a record. */
  function FirstWords(r: Record, n: nat): (got: map<nat, Word>)
    requires n <= RECORD_WORDS
  {
    map i: nat | i < n :: r[i]
  }

  /** The consumer with the first `n` words of the wanted record copied. */
  function Copied(st: State, n: nat): (now: State)
    requires n <= RECORD_WORDS
  {
    st.(pc := Copying(FirstWords(st.slots[st.Slot(st.want)], n)))
  }

  lemma CopyOne(st: State, k: nat)
    requires k < RECORD_WORDS
    ensures Apply(Copied(st, k), CopyWord(k)) == Copied(st, k + 1)
  {
    var r := st.slots[st.Slot(st.want)];
    assert FirstWords(r, k + 1) == FirstWords(r, k)[k := r[k]];
  }

  lemma RunSnoc(st: State, steps: seq<Step>, step: Step)
    ensures Run(st, steps + [step]) == Apply(Run(st, steps), step)
  {
    assert (steps + [step])[..|steps + [step]| - 1] == steps;
  }

  lemma CopiesSnoc(st: State, n: nat)
    requires n > 0
    ensures Run(st, CopySteps(n)) == Apply(Run(st, CopySteps(n - 1)), CopyWord(n - 1))
  {
    RunSnoc(st, CopySteps(n - 1), CopyWord(n - 1));
  }

  lemma NothingCopied(st: State)
    requires st.pc == Copying(map[])
    ensures Copied(st, 0) == st
  {
    assert FirstWords(st.slots[st.Slot(st.want)], 0) == map[];
  }

  lemma {:induction false} CopyingRun(st: State, n: nat)
    requires n <= RECORD_WORDS && st.pc == Copying(map[])
    ensures Run(st, CopySteps(n)) == Copied(st, n)
  {
    if n == 0 {
      NothingCopied(st);
    } else {
      CopyingRun(st, n - 1);
      CopiesSnoc(st, n);
      CopyOne(st, n - 1);
    }
  }

  lemma {:induction false} SkippedCopyRun(st: State, n: nat)
    requires !st.pc.Copying?
    ensures Run(st, CopySteps(n)) == st
  {
    if n > 0 {
      SkippedCopyRun(st, n - 1);
      assert CopySteps(n)[..|CopySteps(n)| - 1] == CopySteps(n - 1);
    }
  }

  lemma RunTwo(st: State, a: Step, b: Step)
    ensures Run(st, [a, b]) == Apply(Apply(st, a), b)
  {
    RunOne(st, a);
    RunSnoc(st, [a], b);
    assert [a] + [b] == [a, b];
  }

  lemma CallUnfolds(st: State)
    ensures Run(st, CallSteps()) ==
            var asked := Apply(Apply(st, LoadCursor), LoadSeq);
            Apply(Apply(Run(asked, CopySteps(RECORD_WORDS)), Recheck), Reseat)
  {
    var copies := CopySteps(RECORD_WORDS);
    RunConcat(st, [LoadCursor, LoadSeq] + copies, [Recheck, Reseat]);
    RunConcat(st, [LoadCursor, LoadSeq], copies);
    RunTwo(st, LoadCursor, LoadSeq);
    RunTwo(Run(Run(st, [LoadCursor, LoadSeq]), copies), Recheck, Reseat);
  }

  /** The steps of one call, run without interruption, amount to `Received`. */
  lemma CallIsReceived(st: State)
    requires st.pc == Ready
    ensures Run(st, CallSteps()) == Received(st)
  {
    var asked := Apply(Apply(st, LoadCursor), LoadSeq);
    CallUnfolds(st);
    if asked.pc.Copying? {
      assert asked == st.(pc := Copying(map[])) && Received(st).want == st.want + 1;
      CopyingRun(asked, RECORD_WORDS);
      DeliversCopy(asked);
    } else {
      SkippedCopyRun(asked, RECORD_WORDS);
      AnswersWithoutCopy(st);
    }
  }

  lemma AnswersWithoutCopy(st: State)
    requires st.pc == Ready && !Apply(Apply(st, LoadCursor), LoadSeq).pc.Copying?
    ensures Apply(Apply(Apply(Apply(st, LoadCursor), LoadSeq), Recheck), Reseat) == Received(st)
  {
  }

  lemma DeliversCopy(st: State)
    requires st.pc == Copying(map[]) && st.SeqOf(st.want) == st.want
    ensures Apply(Apply(Copied(st, RECORD_WORDS), Recheck), Reseat) ==
            st.(pc := Ready, want := st.want + 1,
                events := st.events + [Delivered(st.want, st.slots[st.Slot(st.want)])])
  {
    var r := st.slots[st.Slot(st.want)];
    assert Complete(FirstWords(r, RECORD_WORDS));
    assert Assemble(FirstWords(r, RECORD_WORDS)) == r;
  }

  // ------------------------------------------------------------------------------------------------
  // Draining
  // ------------------------------------------------------------------------------------------------

  function Calls(st: State, n: nat): State {
    if n == 0 then st else Received(Calls(st, n - 1))
  }

  /** Where a consumer that has fallen behind is put before it reads again. */
  function FirstReadable(st: State): nat {
    if st.cursor > st.want + st.Capacity() then st.cursor - st.Capacity() else st.want
  }

  function LagNotice(st: State): seq<Event> {
    if st.cursor > st.want + st.Capacity() then [Skipped(st.want, FirstReadable(st) - st.want)] else []
  }

  function Deliveries(log: seq<Record>, from: nat, n: nat): seq<Event>
    requires from + n <= |log|
  {
    if n == 0 then []
    else Deliveries(log, from, n - 1) + [Delivered(from + n - 1, log[from + n - 1])]
  }

  /** Nothing between the consumer and the cursor has been spoilt by a slot claimed and not published. */
  predicate Unspoilt(st: State) {
    st.touched ==> st.next < st.want + st.Capacity()
  }

  ghost predicate AllResident(st: State) {
    Shaped(st) && forall s: nat :: Resident(st, s)
  }

  /** A consumer between calls, and a producer between records, with nothing owed to the one spoilt by
    * the other: with no slot claimed since the last publication this is every such state. */
  predicate Quiet(st: State) {
    st.phase.Idle? && st.pc.Ready? && Unspoilt(st)
  }

  /** The consumer `n` records on. */
  function Onward(st: State, n: nat): (now: State)
    requires st.want + n <= |st.log|
  {
    st.(want := st.want + n, events := st.events + Deliveries(st.log, st.want, n))
  }

  lemma OnwardOne(st: State, n: nat)
    requires AllResident(st) && Quiet(st)
    requires st.cursor <= st.want + st.Capacity() && st.want + n < st.cursor
    ensures Received(Onward(st, n)) == Onward(st, n + 1)
  {
    var mid := Onward(st, n);
    assert Resident(st, st.want + n);
    ReadsOne(mid);
    MoreEvents(st.events, Deliveries(st.log, st.want, n), Delivered(mid.want, st.log[mid.want]));
  }

  lemma {:induction false} ReadingInOrder(st: State, n: nat)
    requires AllResident(st) && Quiet(st)
    requires st.cursor <= st.want + st.Capacity() && st.want + n <= st.cursor
    ensures Calls(st, n) == Onward(st, n)
  {
    if n > 0 {
      ReadingInOrder(st, n - 1);
      OnwardOne(st, n - 1);
    } else {
      assert st.events + [] == st.events;
    }
  }

  lemma ReadsOne(st: State)
    requires Shaped(st) && st.phase.Idle? && st.pc.Ready? && Unspoilt(st) && Resident(st, st.want)
    requires st.want < st.cursor <= st.want + st.Capacity()
    ensures st.want < |st.log|
    ensures Received(st) == st.(want := st.want + 1, events := st.events + [Delivered(st.want, st.log[st.want])])
  {
  }

  lemma MoreEvents(a: seq<Event>, b: seq<Event>, e: Event)
    ensures (a + b) + [e] == a + (b + [e])
  {
  }

  lemma {:induction false} CallsConcat(st: State, m: nat, n: nat)
    ensures Calls(st, m + n) == Calls(Calls(st, m), n)
  {
    if n > 0 {
      CallsConcat(st, m, n - 1);
    }
  }

  /** The consumer once it has been told how far behind it was. */
  function CaughtUp(st: State): State {
    st.(want := FirstReadable(st), events := st.events + LagNotice(st))
  }

  lemma NoticesLagOnce(st: State)
    requires AllResident(st) && Quiet(st)
    ensures Calls(st, |LagNotice(st)|) == CaughtUp(st)
  {
    if |LagNotice(st)| > 0 {
      assert Calls(st, 1) == Received(Calls(st, 0)) == Received(st);
    } else {
      assert st.events + [] == st.events;
    }
  }

  lemma CaughtUpIsQuiet(st: State)
    requires AllResident(st) && Quiet(st)
    ensures var on := CaughtUp(st);
            AllResident(on) && Quiet(on) && on.want <= on.cursor <= on.want + on.Capacity()
  {
    forall s: nat ensures Resident(CaughtUp(st), s) { assert Resident(st, s); }
  }

  lemma ReadsAll(on: State)
    requires AllResident(on) && Quiet(on) && on.want <= on.cursor <= on.want + on.Capacity()
    ensures |on.log| == on.cursor
    ensures Calls(on, on.cursor - on.want) ==
            on.(want := on.cursor, events := on.events + Deliveries(on.log, on.want, on.cursor - on.want))
    ensures Calls(on, on.cursor - on.want + 1).events ==
            on.events + Deliveries(on.log, on.want, on.cursor - on.want) + [Nothing]
  {
    ReadingInOrder(on, on.cursor - on.want);
  }

  lemma CallsThenCalls(st: State, m: nat, on: State, n: nat)
    requires Calls(st, m) == on
    ensures Calls(st, m + n) == Calls(on, n)
    ensures Calls(st, m + n + 1) == Calls(on, n + 1)
  {
    CallsConcat(st, m, n);
    CallsConcat(st, m, n + 1);
  }

  /** Once caught up, what is left is read to the end. */
  lemma ReadsTheRest(st: State, on: State, n: nat)
    requires AllResident(st) && Quiet(st) && on == CaughtUp(st) && n == st.cursor - FirstReadable(st)
    ensures st.cursor == |st.log| && FirstReadable(st) + n == |st.log|
    ensures Calls(on, n).want == st.cursor
    ensures Calls(on, n + 1).events == on.events + Deliveries(st.log, FirstReadable(st), n) + [Nothing]
  {
    CaughtUpIsQuiet(st);
    ReadsAll(on);
  }

  lemma DrainsThenEmpty(st: State)
    requires AllResident(st) && Quiet(st)
    ensures var m, n := |LagNotice(st)|, st.cursor - FirstReadable(st);
            n >= 0 && st.cursor == |st.log| && Calls(st, m + n).want == st.cursor &&
            Calls(st, m + n + 1).events ==
              st.events + LagNotice(st) + Deliveries(st.log, FirstReadable(st), n) + [Nothing]
  {
    CaughtUpIsQuiet(st);
    DrainsInCalls(st, |LagNotice(st)|, CaughtUp(st), st.cursor - FirstReadable(st));
  }

  lemma DrainsInCalls(st: State, m: nat, on: State, n: nat)
    requires AllResident(st) && Quiet(st) && on == CaughtUp(st)
    requires m == |LagNotice(st)| && n == st.cursor - FirstReadable(st)
    ensures st.cursor == |st.log| && FirstReadable(st) + n == |st.log| && Calls(st, m + n).want == st.cursor
    ensures Calls(st, m + n + 1).events == on.events + Deliveries(st.log, FirstReadable(st), n) + [Nothing]
  {
    NoticesLagOnce(st);
    CallsThenCalls(st, m, on, n);
    ReadsTheRest(st, on, n);
  }

  /** With no slot claimed, draining gives at most one lag notice, then every remaining record in order,
    * then "empty". */
  lemma DrainsInOrder(st: State)
    requires Reachable(st) && Quiet(st)
    ensures var m, n := |LagNotice(st)|, st.cursor - FirstReadable(st);
            n >= 0 && st.cursor == |st.log| &&
            Calls(st, m + n + 1).events ==
              st.events + LagNotice(st) + Deliveries(st.log, FirstReadable(st), n) + [Nothing]
  {
    ReachableInvariant(st);
    DrainsThenEmpty(st);
  }

  /** `n` answers of `Lagged(0)` at one sequence. */
  function EmptyNotices(want: nat, n: nat): (notices: seq<Event>)
    ensures |notices| == n && forall i :: 0 <= i < n ==> notices[i] == Skipped(want, 0)
  {
    seq(n, _ => Skipped(want, 0))
  }

  /** A consumer owed the one record a claimed slot has destroyed is told `Lagged(0)` by every call, and gets
    * no further, for as long as the producer stands still. */
  lemma {:induction false} StuckForever(st: State, n: nat)
    requires st.want < st.cursor == st.want + st.Capacity() && st.SeqOf(st.want) != st.want
    ensures Calls(st, n) == st.(events := st.events + EmptyNotices(st.want, n))
  {
    if n > 0 {
      StuckForever(st, n - 1);
      assert EmptyNotices(st.want, n) == EmptyNotices(st.want, n - 1) + [Skipped(st.want, 0)];
      MoreEvents(st.events, EmptyNotices(st.want, n - 1), Skipped(st.want, 0));
    } else {
      assert st.events + EmptyNotices(st.want, 0) == st.events;
    }
  }

  lemma SpoiltNeverDrains(st: State, n: nat)
    requires Shaped(st) && st.touched && st.want + st.Capacity() <= st.next
    requires Retired(st, st.next - st.Capacity())
    ensures Calls(st, n).want != st.cursor
  {
    if st.want + st.Capacity() == st.next {
      StuckForever(st, n);
    } else if n > 0 {
      CallsConcat(st, 1, n - 1);
      assert Calls(st, 1) == Received(Calls(st, 0)) == Received(st);
      StuckForever(Received(st), n - 1);
    }
  }

  /** With the producer standing still, enough calls bring the consumer to the cursor. */
  ghost predicate ReachesCursor(st: State) {
    exists n: nat :: Calls(st, n).want == st.cursor
  }

  lemma SpoiltForever(st: State)
    requires Shaped(st) && st.touched && st.want + st.Capacity() <= st.next && Retired(st, st.next - st.Capacity())
    requires st.phase.Idle? && st.pc.Ready?
    ensures !ReachesCursor(st)
  {
    forall n: nat ensures Calls(st, n).want != st.cursor {
      SpoiltNeverDrains(st, n);
    }
  }

  lemma UnspoiltReaches(st: State)
    requires AllResident(st) && Quiet(st)
    ensures ReachesCursor(st)
  {
    DrainsThenEmpty(st);
  }

  /** A slot claimed and not published held a record the consumer is owed. */
  predicate Spoilt(st: State) {
    st.touched && st.want + st.Capacity() <= st.next
  }

  /** The record a claim destroys is the one a full lap behind it. */
  function Owed(st: State): nat
    requires Spoilt(st)
  {
    st.next - st.Capacity()
  }

  /** The slot of the destroyed record has the record's own sequence in it all the same: the fill stored it. */
  predicate Forged(st: State)
    requires Spoilt(st)
  {
    st.SeqOf(Owed(st)) == Owed(st)
  }

  /** The consumer once it has been put at the destroyed record and has taken what its slot holds. */
  function TakenIn(st: State): (now: State)
    requires Spoilt(st)
  {
    st.(want := Owed(st) + 1,
        events := st.events + LagNotice(st) + [Delivered(Owed(st), st.slots[st.Slot(Owed(st))])])
  }

  lemma TakesOwed(st: State)
    requires st.want < st.cursor == st.want + st.Capacity() && st.SeqOf(st.want) == st.want
    ensures Received(st) ==
            st.(want := st.want + 1, events := st.events + [Delivered(st.want, st.slots[st.Slot(st.want)])])
  {
  }

  lemma LagsToOwed(st: State)
    requires Shaped(st) && Spoilt(st) && st.want < Owed(st)
    ensures Received(st) == st.(want := Owed(st), events := st.events + LagNotice(st))
  {
  }

  /** A destroyed record that carries its own sequence is handed over as it is. */
  lemma ForgedIsTakenIn(st: State)
    requires Shaped(st) && Spoilt(st) && Forged(st)
    ensures Calls(st, |LagNotice(st)| + 1) == TakenIn(st)
  {
    if st.want < Owed(st) {
      var at := st.(want := Owed(st), events := st.events + LagNotice(st));
      LagsToOwed(st);
      assert Calls(st, 1) == Received(Calls(st, 0)) == at;
      TakesOwed(at);
    } else {
      assert st.events + LagNotice(st) == st.events;
      TakesOwed(st);
      assert Calls(st, 1) == Received(Calls(st, 0));
    }
  }

  lemma TakenInIsQuiet(st: State)
    requires AllResident(st) && Spoilt(st) && st.phase.Idle? && st.pc.Ready?
    ensures AllResident(TakenIn(st)) && Quiet(TakenIn(st))
  {
    forall s: nat ensures Resident(TakenIn(st), s) { assert Resident(st, s); }
  }

  lemma ReachesLater(st: State, m: nat, on: State)
    requires Calls(st, m) == on && on.cursor == st.cursor && ReachesCursor(on)
    ensures ReachesCursor(st)
  {
    var n: nat :| Calls(on, n).want == on.cursor;
    CallsConcat(st, m, n);
  }

  lemma ForgedReaches(st: State)
    requires AllResident(st) && Spoilt(st) && Forged(st) && st.phase.Idle? && st.pc.Ready?
    ensures ReachesCursor(st)
  {
    ForgedIsTakenIn(st);
    TakenInIsQuiet(st);
    UnspoiltReaches(TakenIn(st));
    ReachesLater(st, |LagNotice(st)| + 1, TakenIn(st));
  }

  /** In every state reachable at all, the consumer reaches the cursor exactly when no slot claimed and
    * abandoned has destroyed a record it is owed, or the slot shows that record's sequence all the same. In
    * the one case it is answered `Lagged(0)` for ever, in the other it is handed what is left of the record. */
  lemma DrainReachesCursorIff(st: State)
    requires Reachable(st) && st.phase.Idle? && st.pc.Ready?
    ensures ReachesCursor(st) <==> !(Spoilt(st) && !Forged(st))
  {
    ReachableInvariant(st);
    if !Spoilt(st) {
      UnspoiltReaches(st);
    } else if Forged(st) {
      ForgedReaches(st);
    } else {
      SpoiltForever(st);
    }
  }

  /** With no fill storing that sequence, every spoilt state is stuck. */
  lemma UnforgedDrainIff(st: State)
    requires Reachable(st) && st.phase.Idle? && st.pc.Ready?
    requires Spoilt(st) ==> ReachableUnforged(st, Owed(st))
    ensures ReachesCursor(st) <==> !Spoilt(st)
  {
    DrainReachesCursorIff(st);
    if Spoilt(st) {
      UnforgedInvariant(st, Owed(st));
      ReachableInvariant(st);
    }
  }
}

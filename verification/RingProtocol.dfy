/** The shared-memory ring as a two-party step system.
  *
  * One producer and one consumer share `slots` and `cursor`. Every load and store the two programs make
  * is a step of its own, and a record is moved word by word, so a run is one interleaving and a torn read
  * is expressible. Steps are sequentially consistent: the fences stand for program order. A step that is
  * not enabled leaves the state alone, hence every sequence of steps is a run.
  */
module RingProtocol {
  import opened Words

  const WORD_LIMIT: nat := 0x1_0000_0000_0000_0000
  type Word = w: int | 0 <= w < WORD_LIMIT

  /** What a slot's sequence word holds while the producer is rewriting it. */
  const SEQ_IN_PROGRESS: Word := WORD_LIMIT - 1

  /** 640 bytes a record; `producer_seq` sits at byte 8. */
  const RECORD_WORDS: nat := 80
  const SEQ_WORD: nat := 1

  type Record = r: seq<Word> | |r| == RECORD_WORDS witness seq(RECORD_WORDS, _ => 0)

  /** Where the producer is between `slot()` and the end of `commit()`. */
  datatype Phase = Idle | Filling | Stamped

  /** Where the consumer is inside `try_recv`; `got` is the part of the record already copied. */
  datatype Pc = Detached | Ready | Checking | Copying(got: map<nat, Word>) | Reseating

  /** What the calls of `try_recv` answered. `Skipped(from, n)` is `Lagged(n)` met at sequence `from`. */
  datatype Event = Delivered(number: nat, out: Record) | Nothing | Skipped(from: nat, count: nat)

  /** `touched` remembers that the slot of `next` has been claimed since `next` last moved, and `log` holds
    * every record as it stood when it was stamped; neither is read by a step of the programs. */
  datatype RawState = RawState(
    slots: seq<Record>, cursor: nat,
    next: nat, phase: Phase, touched: bool, log: seq<Record>,
    pc: Pc, start: nat, want: nat, events: seq<Event>)
  {
    function Capacity(): nat { |slots| }

    function Slot(number: nat): nat
      requires Capacity() > 0
    {
      number % Capacity()
    }

    function SeqOf(number: nat): Word
      requires Capacity() > 0
    {
      slots[Slot(number)][SEQ_WORD]
    }

    /** The oldest sequence a full ring can still hold. */
    function Oldest(): nat {
      if cursor > Capacity() then cursor - Capacity() else 0
    }
  }

  type State = st: RawState | st.Capacity() > 0
    witness RawState([seq(RECORD_WORDS, _ => 0)], 0, 0, Idle, false, [], Detached, 0, 0, [])

  datatype Step =
    | Claim | Store(i: nat, w: Word) | Abandon | Stamp | Publish
    | Attach | LoadCursor | LoadSeq | CopyWord(i: nat) | Recheck | Reseat

  function PutWord(st: State, i: nat, w: Word): (slots: seq<Record>)
    requires i < RECORD_WORDS
  {
    var j := st.Slot(st.next);
    st.slots[j := st.slots[j][i := w]]
  }

  function ProducerStep(st: State, step: Step): State {
    match step
    case Claim =>
      if st.phase.Idle? && st.next < SEQ_IN_PROGRESS
      then st.(slots := PutWord(st, SEQ_WORD, SEQ_IN_PROGRESS), phase := Filling, touched := true)
      else st
    case Store(i, w) =>
      if st.phase.Filling? && i < RECORD_WORDS then st.(slots := PutWord(st, i, w)) else st
    case Abandon =>
      if st.phase.Filling? then st.(phase := Idle) else st
    case Stamp =>
      if st.phase.Filling? && st.next < SEQ_IN_PROGRESS
      then
        var slots := PutWord(st, SEQ_WORD, st.next);
        st.(slots := slots, phase := Stamped, log := st.log + [slots[st.Slot(st.next)]])
      else st
    case Publish =>
      if st.phase.Stamped?
      then st.(cursor := st.next + 1, next := st.next + 1, phase := Idle, touched := false)
      else st
    case _ => st
  }

  function ConsumerStep(st: State, step: Step): State {
    match step
    case Attach =>
      if st.pc.Detached? then st.(pc := Ready, start := st.cursor, want := st.cursor) else st
    case LoadCursor =>
      if !st.pc.Ready? then st
      else if st.want >= st.cursor then st.(events := st.events + [Nothing])
      else if st.cursor - st.want > st.Capacity() then
        var safe := st.cursor - st.Capacity();
        st.(want := safe, events := st.events + [Skipped(st.want, safe - st.want)])
      else st.(pc := Checking)
    case LoadSeq =>
      if !st.pc.Checking? then st
      else st.(pc := if st.SeqOf(st.want) == st.want then Copying(map[]) else Reseating)
    case CopyWord(i) =>
      if st.pc.Copying? && i < RECORD_WORDS && i !in st.pc.got
      then st.(pc := Copying(st.pc.got[i := st.slots[st.Slot(st.want)][i]]))
      else st
    case Recheck =>
      if !(st.pc.Copying? && Complete(st.pc.got)) then st
      else if st.SeqOf(st.want) != st.want then st.(pc := Reseating)
      else st.(pc := Ready, want := st.want + 1,
               events := st.events + [Delivered(st.want, Assemble(st.pc.got))])
    case Reseat =>
      if !st.pc.Reseating? then st
      else
        var want := if st.Oldest() > st.want then st.Oldest() else st.want;
        st.(pc := Ready, want := want, events := st.events + [Skipped(st.want, want - st.want)])
    case _ => st
  }

  predicate Complete(got: map<nat, Word>) {
    forall i: nat :: i < RECORD_WORDS ==> i in got
  }

  function Assemble(got: map<nat, Word>): (r: Record)
    requires Complete(got)
  {
    seq(RECORD_WORDS, i requires 0 <= i < RECORD_WORDS => got[i])
  }

  /** A step belongs to one of the two parties and is ignored by the other. */
  function Apply(st: State, step: Step): State {
    ConsumerStep(ProducerStep(st, step), step)
  }

  function Run(st: State, steps: seq<Step>): State {
    if steps == [] then st
    else Apply(Run(st, steps[..|steps| - 1]), steps[|steps| - 1])
  }

  /** The stores of a fill that copies the first `n` words of a record. */
  function FillSteps(rec: Record, n: nat): seq<Step>
    requires n <= RECORD_WORDS
  {
    if n == 0 then [] else FillSteps(rec, n - 1) + [Store(n - 1, rec[n - 1])]
  }

  /** The steps of one `push`. */
  function PushSteps(rec: Record): seq<Step> {
    [Claim] + FillSteps(rec, RECORD_WORDS) + [Stamp] + [Publish]
  }

  /** A producer that has just created its segment; the slots may hold an earlier run's records. */
  predicate Booted(st: State) {
    && st.cursor == 0 && st.next == 0 && st.phase == Idle && !st.touched && st.log == []
    && st.pc == Detached && st.start == 0 && st.want == 0 && st.events == []
  }

  // ------------------------------------------------------------------------------------------------
  // What every step keeps
  // ------------------------------------------------------------------------------------------------

  ghost predicate Shaped(st: State) {
    && st.cursor == st.next <= SEQ_IN_PROGRESS
    && |st.log| == (if st.phase.Stamped? then st.next + 1 else st.next)
    && (!st.phase.Idle? ==> st.touched && st.next < SEQ_IN_PROGRESS)
    && (st.phase.Stamped? ==> st.slots[st.Slot(st.next)] == st.log[st.next])
    && (forall s :: 0 <= s < |st.log| ==> st.log[s][SEQ_WORD] == s)
    && (st.pc.Detached? ==> st.events == [] && st.start == st.want == 0)
    && st.start <= st.want <= st.cursor
    && (st.pc.Checking? || st.pc.Copying? || st.pc.Reseating? ==> st.want < st.cursor)
  }

  lemma StepKeepsShape(st: State, step: Step)
    requires Shaped(st)
    ensures Shaped(Apply(st, step))
  {
  }

  /** Record `s` no longer has its slot: a later lap has been written there, or has begun to be. */
  predicate Overwritten(st: State, s: nat) {
    s + st.Capacity() < st.next || (s + st.Capacity() == st.next && st.touched)
  }

  /** A committed record that has not been overwritten is still in its slot, word for word. */
  ghost predicate Resident(st: State, s: nat) {
    s < |st.log| && !Overwritten(st, s) ==> st.slots[st.Slot(s)] == st.log[s]
  }

  /** An overwritten slot never shows the old sequence again. */
  ghost predicate Retired(st: State, s: nat) {
    s < |st.log| && Overwritten(st, s) ==> st.SeqOf(s) != s
  }

  /** The words copied so far belong to record `s`, unless the copy has been overtaken. */
  ghost predicate CopyFaithful(st: State, s: nat) {
    st.pc.Copying? && st.want == s < |st.log| && !Overwritten(st, s) ==>
      forall i :: i in st.pc.got ==> i < RECORD_WORDS && st.pc.got[i] == st.log[s][i]
  }

  ghost predicate DeliveriesFaithful(st: State, s: nat) {
    forall k :: 0 <= k < |st.events| && st.events[k].Delivered? && st.events[k].number == s ==>
      s < |st.log| && st.events[k].out == st.log[s]
  }

  /** Writing the value `s` into a sequence word is what could make a later lap pass for record `s`. */
  predicate Forges(step: Step, s: nat) {
    step.Store? && step.i == SEQ_WORD && step.w == s
  }

  lemma StepKeepsResident(st: State, step: Step, s: nat)
    requires Shaped(st) && Resident(st, s)
    ensures Resident(Apply(st, step), s)
  {
    if s < st.next && !Overwritten(st, s) {
      if st.next < s + st.Capacity() {
        ResiduesDiffer(s, st.next, st.Capacity());
      }
    }
  }

  lemma StepKeepsRetired(st: State, step: Step, s: nat)
    requires Shaped(st) && Resident(st, s) && Retired(st, s) && !Forges(step, s)
    ensures Retired(Apply(st, step), s)
  {
    if s + st.Capacity() == st.next {
      ResidueOfLap(s, st.Capacity());
    }
  }

  lemma StepKeepsCopy(st: State, step: Step, s: nat)
    requires Shaped(st) && Resident(st, s) && Retired(st, s) && CopyFaithful(st, s)
    ensures CopyFaithful(Apply(st, step), s)
  {
  }

  lemma StepKeepsDeliveries(st: State, step: Step, s: nat)
    requires Shaped(st) && Resident(st, s) && Retired(st, s) && CopyFaithful(st, s) && DeliveriesFaithful(st, s)
    ensures DeliveriesFaithful(Apply(st, step), s)
  {
  }

  // ------------------------------------------------------------------------------------------------
  // Whole runs
  // ------------------------------------------------------------------------------------------------

  ghost predicate Unforged(steps: seq<Step>, s: nat) {
    forall k :: 0 <= k < |steps| ==> !Forges(steps[k], s)
  }

  /** `st` is where some interleaving of the two programs, started on a fresh segment, has got to. */
  ghost predicate Reachable(st: State) {
    exists boot: State, steps: seq<Step> :: Booted(boot) && Run(boot, steps) == st
  }

  /** As `Reachable`, over the interleavings in which no fill writes the value `s` into a sequence word. */
  ghost predicate ReachableUnforged(st: State, s: nat) {
    exists boot: State, steps: seq<Step> :: Booted(boot) && Unforged(steps, s) && Run(boot, steps) == st
  }

  lemma {:induction false} RunShaped(boot: State, steps: seq<Step>)
    requires Booted(boot)
    ensures Shaped(Run(boot, steps))
  {
    if steps != [] {
      var init := steps[..|steps| - 1];
      RunShaped(boot, init);
      StepKeepsShape(Run(boot, init), steps[|steps| - 1]);
    }
  }

  lemma {:induction false} RunResident(boot: State, steps: seq<Step>, s: nat)
    requires Booted(boot)
    ensures Resident(Run(boot, steps), s)
  {
    if steps != [] {
      var init := steps[..|steps| - 1];
      RunShaped(boot, init);
      RunResident(boot, init, s);
      StepKeepsResident(Run(boot, init), steps[|steps| - 1], s);
    }
  }

  lemma {:induction false} RunFaithful(boot: State, steps: seq<Step>, s: nat)
    requires Booted(boot) && Unforged(steps, s)
    ensures var st := Run(boot, steps); Retired(st, s) && CopyFaithful(st, s) && DeliveriesFaithful(st, s)
  {
    if steps != [] {
      var init, last := steps[..|steps| - 1], steps[|steps| - 1];
      RunShaped(boot, init);
      RunResident(boot, init, s);
      RunFaithful(boot, init, s);
      StepKeepsRetired(Run(boot, init), last, s);
      StepKeepsCopy(Run(boot, init), last, s);
      StepKeepsDeliveries(Run(boot, init), last, s);
    }
  }

  lemma ReachableInvariant(st: State)
    requires Reachable(st)
    ensures Shaped(st) && forall s: nat :: Resident(st, s)
  {
    var boot: State, steps :| Booted(boot) && Run(boot, steps) == st;
    RunShaped(boot, steps);
    forall s: nat ensures Resident(st, s) { RunResident(boot, steps, s); }
  }

  lemma UnforgedInvariant(st: State, s: nat)
    requires ReachableUnforged(st, s)
    ensures Reachable(st) && Retired(st, s) && CopyFaithful(st, s) && DeliveriesFaithful(st, s)
  {
    var boot: State, steps :| Booted(boot) && Unforged(steps, s) && Run(boot, steps) == st;
    RunFaithful(boot, steps, s);
  }

  /** In every reachable state, whatever the fills wrote, each published sequence of the last lap sits
    * intact in slot `s mod capacity`, save `next - capacity` once its slot has been claimed. */
  lemma LastLapIsResident(st: State, s: nat)
    requires Reachable(st)
    requires s < st.cursor <= s + st.Capacity() && !(st.touched && s + st.Capacity() == st.next)
    ensures s < |st.log| && st.slots[s % st.Capacity()] == st.log[s] && st.log[s][SEQ_WORD] == s
  {
    ReachableInvariant(st);
    assert Resident(st, s);
  }

  /** No torn read: in every interleaving, what is handed over under `s` is, word for word, the record
    * committed under `s`, provided no fill writes the value `s` into a sequence word. */
  lemma NoTornRead(st: State, s: nat, k: nat)
    requires ReachableUnforged(st, s)
    requires k < |st.events| && st.events[k].Delivered? && st.events[k].number == s
    ensures s < |st.log| && st.events[k].out == st.log[s] && st.events[k].out[SEQ_WORD] == s
  {
    UnforgedInvariant(st, s);
    ReachableInvariant(st);
  }
}

/** Which message numbers of a session's inbound side were accepted, seen twice, or passed over. */
module FixSession {
  import opened Wrappers

  datatype Verdict =
    | InOrder
    | Gap(expected: nat, received: nat, missing: nat)
    | Duplicate(expected: nat, received: nat)
    | Regression(expected: nat, received: nat)

  /** `resend_range`: the inclusive range to ask back. */
  function ResendRange(v: Verdict): Option<(nat, nat)> {
    match v
    case Gap(expected, received, _) => if received > 0 then Some((expected, received - 1)) else None
    case _ => None
  }

  /** The state's counters as a value. */
  datatype Counters = Counters(nextExpected: nat, observed: nat, gaps: nat, lost: nat, duplicates: nat,
    regressions: nat)

  const FRESH: Counters := Counters(1, 0, 0, 0, 0, 0)

  function Judge(c: Counters, seqNum: nat, possDup: bool): Verdict {
    if seqNum == c.nextExpected then InOrder
    else if seqNum > c.nextExpected then Gap(c.nextExpected, seqNum, seqNum - c.nextExpected)
    else if possDup then Duplicate(c.nextExpected, seqNum)
    else Regression(c.nextExpected, seqNum)
  }

  /** What one message does to the counters. */
  function Observed(c: Counters, seqNum: nat, possDup: bool): Counters {
    var d := c.(observed := c.observed + 1);
    match Judge(c, seqNum, possDup)
    case InOrder => d.(nextExpected := seqNum + 1)
    case Gap(_, _, missing) => d.(gaps := c.gaps + 1, lost := c.lost + missing, nextExpected := seqNum + 1)
    case Duplicate(_, _) => d.(duplicates := c.duplicates + 1)
    case Regression(_, _) => d.(regressions := c.regressions + 1)
  }

  datatype AdminKind = Logon | Logout | SequenceReset | OtherAdmin

  datatype Admin = Admin(kind: AdminKind, heartbeatSecs: Option<nat>, newSeqNo: Option<nat>)

  /** `SessionState`. */
  class SessionState {
    var nextExpected: nat
    var lastRecvNs: nat
    var heartbeatIntervalNs: nat
    var observed: nat
    var gaps: nat
    var lost: nat
    var duplicates: nat
    var regressions: nat
    var loggedOn: bool

    ghost function View(): Counters
      reads this
    {
      Counters(nextExpected, observed, gaps, lost, duplicates, regressions)
    }

    constructor ()
      ensures View() == FRESH && lastRecvNs == 0 && heartbeatIntervalNs == 0 && !loggedOn
    {
      nextExpected := 1;
      lastRecvNs, heartbeatIntervalNs := 0, 0;
      observed, gaps, lost, duplicates, regressions := 0, 0, 0, 0, 0;
      loggedOn := false;
    }

    /** `observe`: a gap moves past the hole. */
    method Observe(seqNum: nat, possDup: bool, recvNs: nat) returns (v: Verdict)
      modifies this
      ensures v == Judge(old(View()), seqNum, possDup) && View() == Observed(old(View()), seqNum, possDup)
      ensures lastRecvNs == recvNs && heartbeatIntervalNs == old(heartbeatIntervalNs) && loggedOn == old(loggedOn)
    {
      observed := observed + 1;
      lastRecvNs := recvNs;
      var expected := nextExpected;
      if seqNum == expected {
        nextExpected := seqNum + 1;
        return InOrder;
      }
      if seqNum > expected {
        var missing := seqNum - expected;
        gaps := gaps + 1;
        lost := lost + missing;
        nextExpected := seqNum + 1;
        return Gap(expected, seqNum, missing);
      }
      if possDup {
        duplicates := duplicates + 1;
        return Duplicate(expected, seqNum);
      }
      regressions := regressions + 1;
      return Regression(expected, seqNum);
    }

    /** `apply_admin`: Logon fixes the heartbeat, SequenceReset moves the expected number, and no counter moves. */
    method ApplyAdmin(msg: Admin)
      modifies this
      ensures View() == old(View()).(nextExpected :=
                if msg.kind == SequenceReset && msg.newSeqNo.Some? then msg.newSeqNo.value else old(nextExpected))
      ensures loggedOn == (msg.kind == Logon || (old(loggedOn) && msg.kind != Logout))
      ensures heartbeatIntervalNs == if msg.kind == Logon && msg.heartbeatSecs.Some?
                                     then msg.heartbeatSecs.value * 1_000_000_000 else old(heartbeatIntervalNs)
      ensures lastRecvNs == old(lastRecvNs)
    {
      if msg.kind == Logon {
        loggedOn := true;
        if msg.heartbeatSecs.Some? {
          heartbeatIntervalNs := msg.heartbeatSecs.value * 1_000_000_000;
        }
      }
      if msg.kind == Logout {
        loggedOn := false;
      }
      if msg.kind == SequenceReset && msg.newSeqNo.Some? {
        nextExpected := msg.newSeqNo.value;
      }
    }
  }

  // ------------------------------------------------------------------------------------------------
  // Whole runs
  // ------------------------------------------------------------------------------------------------

  datatype Arrival = Arrival(seqNum: nat, possDup: bool)

  /** The state after a run of arrivals, the last of them last. */
  function After(run: seq<Arrival>): Counters {
    if run == [] then FRESH
    else Observed(After(run[..|run| - 1]), run[|run| - 1].seqNum, run[|run| - 1].possDup)
  }

  function VerdictAt(run: seq<Arrival>, i: nat): Verdict
    requires i < |run|
  {
    Judge(After(run[..i]), run[i].seqNum, run[i].possDup)
  }

  /** The message was processed. */
  predicate Accepted(run: seq<Arrival>, i: nat)
    requires i < |run|
  {
    VerdictAt(run, i).InOrder? || VerdictAt(run, i).Gap?
  }

  /** The `n`-th number was reported missing with the `i`-th message. */
  predicate Reported(run: seq<Arrival>, i: nat, n: nat)
    requires i < |run|
  {
    var r := ResendRange(VerdictAt(run, i));
    r.Some? && r.value.0 <= n <= r.value.1
  }

  function RangeSize(r: Option<(nat, nat)>): nat {
    if r.Some? && r.value.0 <= r.value.1 then r.value.1 - r.value.0 + 1 else 0
  }

  function TotalReported(run: seq<Arrival>): nat {
    if run == [] then 0
    else TotalReported(run[..|run| - 1]) + RangeSize(ResendRange(VerdictAt(run, |run| - 1)))
  }

  function Tally(run: seq<Arrival>, which: Verdict -> bool): nat {
    if run == [] then 0
    else Tally(run[..|run| - 1], which) + if which(VerdictAt(run, |run| - 1)) then 1 else 0
  }

  /** The `i`-th message accounts for the number `n`: it carried it, or reported it missing. */
  predicate Accounts(run: seq<Arrival>, i: nat, n: nat)
    requires i < |run|
  {
    (Accepted(run, i) && run[i].seqNum == n) || Reported(run, i, n)
  }

  lemma EarlierAccounts(run: seq<Arrival>, i: nat, n: nat)
    requires i < |run| - 1
    ensures VerdictAt(run[..|run| - 1], i) == VerdictAt(run, i)
    ensures Accounts(run[..|run| - 1], i, n) <==> Accounts(run, i, n)
  {
    assert run[..|run| - 1][..i] == run[..i];
  }

  /** The last message accounts for exactly the numbers it moves the expected one past. */
  lemma LastAccounts(run: seq<Arrival>, n: nat)
    requires run != []
    ensures Accounts(run, |run| - 1, n) <==> After(run[..|run| - 1]).nextExpected <= n < After(run).nextExpected
  {
  }

  lemma {:induction false} StartsAtOne(run: seq<Arrival>)
    ensures After(run).nextExpected >= 1
    decreases |run|
  {
    if run != [] {
      StartsAtOne(run[..|run| - 1]);
    }
  }

  /** Between resets `[1, next_expected)` is exactly what the messages account for. */
  lemma {:induction false} CoveredIff(run: seq<Arrival>, n: nat)
    ensures 1 <= n < After(run).nextExpected <==> exists i :: 0 <= i < |run| && Accounts(run, i, n)
    decreases |run|
  {
    if run != [] {
      var init, last := run[..|run| - 1], |run| - 1;
      CoveredIff(init, n);
      LastAccounts(run, n);
      StartsAtOne(init);
      NeverBack(run, last);
      forall i | 0 <= i < last ensures Accounts(init, i, n) <==> Accounts(run, i, n) { EarlierAccounts(run, i, n); }
      assert (exists i :: 0 <= i < |run| && Accounts(run, i, n)) <==>
        (exists i :: 0 <= i < last && Accounts(run, i, n)) || Accounts(run, last, n);
    }
  }

  /** What one message accounts for lies in one stretch of numbers, all before those of later messages. */
  lemma {:induction false} Later(run: seq<Arrival>, i: nat, n: nat)
    requires i < |run| && Accounts(run, i, n)
    ensures After(run[..i]).nextExpected <= n < After(run[..i + 1]).nextExpected
  {
    var upTo := run[..i + 1];
    assert upTo[..i] == run[..i];
    assert VerdictAt(upTo, i) == VerdictAt(run, i);
    LastAccounts(upTo, n);
  }

  lemma {:induction false} NeverBack(run: seq<Arrival>, i: nat)
    requires i <= |run|
    ensures After(run[..i]).nextExpected <= After(run).nextExpected
    decreases |run|
  {
    if i == |run| {
      assert run[..i] == run;
    } else {
      assert run[..|run| - 1][..i] == run[..i];
      NeverBack(run[..|run| - 1], i);
    }
  }

  /** No number is accounted for by two messages, nor both carried and reported missing by one. */
  lemma OnlyOnce(run: seq<Arrival>, i: nat, j: nat, n: nat)
    requires i < |run| && j < |run| && Accounts(run, i, n) && Accounts(run, j, n)
    ensures i == j && !(Accepted(run, i) && run[i].seqNum == n && Reported(run, i, n))
  {
    Later(run, i, n);
    Later(run, j, n);
    if i < j {
      assert run[..j][..i + 1] == run[..i + 1];
      NeverBack(run[..j], i + 1);
    } else if j < i {
      assert run[..i][..j + 1] == run[..j + 1];
      NeverBack(run[..i], j + 1);
    }
  }

  /** The counters split: every observation is one of four kinds, and the numbers lost are those reported. */
  lemma {:induction false} CountersSplit(run: seq<Arrival>)
    ensures var c := After(run);
            && c.observed == |run| && c.lost == TotalReported(run)
            && c.gaps == Tally(run, (v: Verdict) => v.Gap?)
            && c.duplicates == Tally(run, (v: Verdict) => v.Duplicate?)
            && c.regressions == Tally(run, (v: Verdict) => v.Regression?)
            && c.observed == Tally(run, (v: Verdict) => v.InOrder?) + c.gaps + c.duplicates + c.regressions
    decreases |run|
  {
    if run != [] {
      CountersSplit(run[..|run| - 1]);
    }
  }

  /** The numbers accepted and the sizes of the ranges reported add up to all the numbers gone by. */
  lemma {:induction false} NumbersAddUp(run: seq<Arrival>)
    ensures After(run).nextExpected - 1 ==
            Tally(run, (v: Verdict) => v.InOrder?) + Tally(run, (v: Verdict) => v.Gap?) + TotalReported(run)
    decreases |run|
  {
    if run != [] {
      NumbersAddUp(run[..|run| - 1]);
    }
  }

  /** An earlier message accounts for the number. */
  predicate AlreadySeen(run: seq<Arrival>, i: nat, n: nat)
    requires i < |run|
  {
    exists j :: 0 <= j < i && Accounts(run, j, n)
  }

  lemma SeenBefore(run: seq<Arrival>, i: nat, n: nat)
    requires i < |run|
    ensures 1 <= n < After(run[..i]).nextExpected <==> AlreadySeen(run, i, n)
  {
    CoveredIff(run[..i], n);
    forall j | 0 <= j < i ensures Accounts(run[..i], j, n) <==> Accounts(run, j, n) {
      assert run[..i][..j] == run[..j];
    }
  }

  /** A message whose number is zero or accounted for already is a duplicate exactly when it is flagged as one,
    * and a regression otherwise; any other message is accepted. */
  lemma JudgedIff(run: seq<Arrival>, i: nat)
    requires i < |run|
    ensures var v, n := VerdictAt(run, i), run[i].seqNum;
            && (v.Duplicate? <==> (n == 0 || AlreadySeen(run, i, n)) && run[i].possDup)
            && (v.Regression? <==> (n == 0 || AlreadySeen(run, i, n)) && !run[i].possDup)
            && (Accepted(run, i) <==> n > 0 && !AlreadySeen(run, i, n))
  {
    StartsAtOne(run[..i]);
    SeenBefore(run, i, run[i].seqNum);
  }

  /** What an accepted message reports missing is every smaller number not accounted for, and it is a gap exactly
    * when there is one. */
  lemma ReportedIff(run: seq<Arrival>, i: nat, n: nat)
    requires i < |run|
    ensures Reported(run, i, n) <==> Accepted(run, i) && 1 <= n < run[i].seqNum && !AlreadySeen(run, i, n)
    ensures Reported(run, i, n) ==> VerdictAt(run, i).Gap?
    ensures VerdictAt(run, i).Gap? ==> Reported(run, i, run[i].seqNum - 1)
  {
    StartsAtOne(run[..i]);
    SeenBefore(run, i, n);
  }

  /** A verdict names the message's number, and as the expected one the least above zero not accounted for. */
  lemma Expected(run: seq<Arrival>, i: nat)
    requires i < |run| && !VerdictAt(run, i).InOrder?
    ensures var v := VerdictAt(run, i);
            && v.received == run[i].seqNum && v.expected >= 1 && !AlreadySeen(run, i, v.expected)
            && (forall n :: 1 <= n < v.expected ==> AlreadySeen(run, i, n))
            && (v.Gap? ==> v.expected + v.missing == v.received)
  {
    var v := VerdictAt(run, i);
    StartsAtOne(run[..i]);
    SeenBefore(run, i, v.expected);
    forall n | 1 <= n < v.expected ensures AlreadySeen(run, i, n) {
      SeenBefore(run, i, n);
    }
  }
}

/** The money that leaves: broadcasts of withdrawals against the statuses of their rows. */
module WithdrawalPayouts {
  import opened Basics
  import opened Withdrawing
  import opened WithdrawalLaws
  import opened WithdrawalPending

  ghost predicate WritesServed(steps: seq<Step>) {
    forall i :: 0 <= i < |steps| && (steps[i].Approve? || steps[i].Reject?) ==> steps[i].writeOk
  }

  ghost predicate SentIfCompleted(s: State) {
    && (forall id: nat :: s.sent[id] == if id < |s.rows| && s.rows[id].status == Completed then 1 else 0)
  }

  lemma {:induction false} StepSends(s: State, step: Step)
    requires SentIfCompleted(s) && Enabled(s, step) && Fresh(s, step)
    requires step.Approve? || step.Reject? ==> step.writeOk
    ensures SentIfCompleted(Apply(s, step))
  {
    hide Sum, Count;
    var t := Apply(s, step);
    forall id: nat
      ensures t.sent[id] == if id < |t.rows| && t.rows[id].status == Completed then 1 else 0
    {
      assert s.sent[id] == if id < |s.rows| && s.rows[id].status == Completed then 1 else 0;
    }
  }

  /**
   * When reviews of a row are serialised and every status write is served, a row is broadcast once if it is completed,
   * and never otherwise.
   */
  lemma {:induction false} BroadcastOnce(steps: seq<Step>)
    requires Legal(steps) && Serialised(steps) && WritesServed(steps)
    ensures SentIfCompleted(Run(steps))
  {
    if steps != [] {
      var n := |steps| - 1;
      BroadcastOnce(steps[..n]);
      StepSends(Run(steps[..n]), steps[n]);
    }
  }

  /** A window of creation times; None is open. */
  datatype Window = Window(after: Option<real>, upTo: Option<real>)

  const ALWAYS := Window(None, None)

  function DayFrom(x: real): Window {
    Window(Some(x), Some(x + DAY))
  }

  predicate Within(r: Row, a: Account, w: Window) {
    && r.account == a
    && (w.after.Some? ==> r.createdAt > w.after.value)
    && (w.upTo.Some? ==> r.createdAt <= w.upTo.value)
  }

  /** What was broadcast for an account, each time counted, on rows created in the window. */
  function PaidOut(rows: seq<Row>, sent: multiset<nat>, a: Account, w: Window): nat {
    if rows == [] then 0
    else
      var n := |rows| - 1;
      PaidOut(rows[..n], sent, a, w) + if Within(rows[n], a, w) then sent[n] * rows[n].amount else 0
  }

  lemma {:induction false} PaidIsCompleted(rows: seq<Row>, sent: multiset<nat>, a: Account, w: Window)
    requires forall id: nat :: id < |rows| ==> sent[id] == if rows[id].status == Completed then 1 else 0
    ensures PaidOut(rows, sent, a, w) == Sum(rows, Query(a, true, false, w.after, w.upTo))
  {
    if rows != [] {
      PaidIsCompleted(rows[..|rows| - 1], sent, a, w);
    }
  }

  lemma {:induction false} NoRowsNothingPaid(rows: seq<Row>, sent: multiset<nat>, a: Account, w: Window)
    requires forall i :: 0 <= i < |rows| ==> rows[i].account != a
    ensures PaidOut(rows, sent, a, w) == 0
  {
    if rows != [] {
      NoRowsNothingPaid(rows[..|rows| - 1], sent, a, w);
    }
  }

  /**
   * With serialised reviews and status writes served, what was paid out to an account with at most k open requests at a
   * time is at most k times its deposits, and for the rows created in any 24 hours at most k times the daily limit.
   */
  lemma {:induction false} PayoutsBounded(steps: seq<Step>, a: Account, k: nat, m: nat, x: real)
    requires Legal(steps) && Serialised(steps) && WritesServed(steps) && NeverMoreOpen(steps, a, k)
    requires LimitsAtMost(steps, a, m)
    ensures var s := Run(steps);
            && PaidOut(s.rows, s.sent, a, ALWAYS) <= k * Deposited(s, a)
            && PaidOut(s.rows, s.sent, a, DayFrom(x)) <= k * m
  {
    var s := Run(steps);
    BroadcastOnce(steps);
    PaidIsCompleted(s.rows, s.sent, a, ALWAYS);
    PaidIsCompleted(s.rows, s.sent, a, DayFrom(x));
    SolvencyByOpenRequests(steps, a, k);
    CompletedInADay(steps, a, k, m, x);
  }
}

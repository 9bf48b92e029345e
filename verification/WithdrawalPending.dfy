/** What the number of pending rows alone bounds, and what it bounds when approvals keep out of requests. */
module WithdrawalPending {
  import opened Basics
  import opened Withdrawing
  import opened WithdrawalLaws

  ghost predicate NeverMorePending(steps: seq<Step>, a: Account, k: nat) {
    Count(Run(steps).rows, AllPending(a)) <= k && (steps == [] || NeverMorePending(steps[..|steps| - 1], a, k))
  }

  /** No row of the account is approved while a request of the account is under way. */
  ghost predicate StaysOut(s: State, step: Step, a: Account) {
    (step.Approve? && step.admin in s.reviews && s.reviews[step.admin] < |s.rows| &&
     s.rows[s.reviews[step.admin]].account == a) ==> a !in s.inflight
  }

  ghost predicate Apart(steps: seq<Step>, a: Account) {
    steps == [] || (Apart(steps[..|steps| - 1], a) && StaysOut(Run(steps[..|steps| - 1]), steps[|steps| - 1], a))
  }

  // ---- Pending rows alone: one request more ----

  lemma {:induction false} PendingBoundsOpen(steps: seq<Step>, a: Account, k: nat)
    requires NeverMorePending(steps, a, k)
    ensures NeverMoreOpen(steps, a, k + 1)
  {
    hide Run, Count;
    if steps != [] {
      PendingBoundsOpen(steps[..|steps| - 1], a, k);
    }
  }

  lemma {:induction false} OpenBoundsPending(steps: seq<Step>, a: Account, k: nat)
    requires NeverMoreOpen(steps, a, k)
    ensures NeverMorePending(steps, a, k)
  {
    hide Run, Count;
    if steps != [] {
      OpenBoundsPending(steps[..|steps| - 1], a, k);
    }
  }

  /** With at most k pending rows at a time, everything stays within k + 1 times the deposits and the limit. */
  lemma {:induction false} PendingAlone(steps: seq<Step>, a: Account, k: nat, m: nat)
    requires Legal(steps) && Serialised(steps) && NeverMorePending(steps, a, k) && LimitsAtMost(steps, a, m)
    ensures Solvent(Run(steps), a, k + 1) && Capped(Run(steps), a, k + 1, m)
  {
    PendingBoundsOpen(steps, a, k);
    SolvencyByOpenRequests(steps, a, k + 1);
    RollingLimit(steps, a, k + 1, m);
  }

  // ---- Approvals keep out of requests ----

  /** The completed withdrawals created in the 24 hours after a moment. */
  function CompletedDay(a: Account, x: real): Query {
    Query(a, true, false, Some(x), Some(x + DAY))
  }

  ghost predicate SolventApart(s: State, a: Account, k: nat) {
    && Sum(s.rows, AllCompleted(a)) + Sum(s.rows, AllPending(a)) <= k * Deposited(s, a)
    && EachAtMost(s.rows, AllPending(a), Deposited(s, a))
    && (a in s.inflight ==> UnderWay(s, a) + Sum(s.rows, AllCompleted(a)) <= Deposited(s, a))
  }

  /** Every day that a row created from now on can fall into has room for the amount beside its completed rows. */
  ghost predicate RoomApart(s: State, a: Account, m: nat, amount: nat, checkedAt: real) {
    && amount <= m
    && forall x: real :: x >= checkedAt - DAY ==> Sum(s.rows, CompletedDay(a, x)) + amount <= m
  }

  ghost predicate CappedApart(s: State, a: Account, k: nat, m: nat) {
    && (forall x: real :: Sum(s.rows, DayAfter(a, x)) <= k * m)
    && EachAtMost(s.rows, AllPending(a), m)
    && (a in s.inflight && s.inflight[a].Cleared? ==> RoomApart(s, a, m, s.inflight[a].amount, s.inflight[a].checkedAt))
  }

  /** Settling a row leaves the completed rows of an account alone unless it completes one of the account's. */
  lemma {:induction false} SettleOther(rows: seq<Row>, id: nat, status: Status, q: Query)
    requires id < |rows| && rows[id].status == Pending && q.completed && !q.pending
    requires status == Failed || status == Rejected || rows[id].account != q.account
    ensures Sum(rows[id := rows[id].(status := status)], q) == Sum(rows, q)
  {
    SumUpdate(rows, id, rows[id].(status := status), q);
  }

  lemma {:induction false} ReviewApart(s: State, step: Step, a: Account, q: Query)
    requires Enabled(s, step) && Fresh(s, step) && StaysOut(s, step, a) && (step.Approve? || step.Reject?)
    requires a in s.inflight && q.account == a && q.completed && !q.pending
    ensures Sum(Apply(s, step).rows, q) == Sum(s.rows, q)
  {
    var t, id := Apply(s, step), s.reviews[step.admin];
    if t.rows != s.rows {
      SettleOther(s.rows, id, t.rows[id].status, q);
    }
  }

  lemma {:induction false} ReviewKeepsSolventApart(s: State, step: Step, a: Account, k: nat)
    requires SolventApart(s, a, k) && Enabled(s, step) && Fresh(s, step) && StaysOut(s, step, a)
    requires (step.Approve? || step.Reject?)
    ensures SolventApart(Apply(s, step), a, k)
  {
    hide Fresh, Enabled, Apply, StaysOut, Sum, Count, Selects;
    var t := Apply(s, step);
    ReviewEffect(s, step);
    if t.rows != s.rows {
      var id: nat, st: Status :| Settles(s.rows, t.rows, id, st);
      SettleRow(s.rows, id, st, a, Deposited(s, a));
    }
    if a in s.inflight {
      ReviewApart(s, step, a, AllCompleted(a));
    }
  }

  lemma {:induction false} ReviewKeepsCappedApart(s: State, step: Step, a: Account, k: nat, m: nat)
    requires CappedApart(s, a, k, m) && Enabled(s, step) && Fresh(s, step) && StaysOut(s, step, a)
    requires (step.Approve? || step.Reject?)
    ensures CappedApart(Apply(s, step), a, k, m)
  {
    hide Fresh, Enabled, Apply, StaysOut, Sum, Count, Selects;
    var t := Apply(s, step);
    ReviewEffect(s, step);
    if t.rows != s.rows {
      var id: nat, st: Status :| Settles(s.rows, t.rows, id, st);
      SettleRow(s.rows, id, st, a, m);
      assert forall x: real :: Sum(t.rows, DayAfter(a, x)) <= Sum(s.rows, DayAfter(a, x));
    }
    if a in s.inflight {
      forall x: real
        ensures Sum(t.rows, CompletedDay(a, x)) == Sum(s.rows, CompletedDay(a, x))
      {
        ReviewApart(s, step, a, CompletedDay(a, x));
      }
    }
  }

  /** The rows of a day are completed ones of the day and pending ones. */
  lemma {:induction false} DayParts(rows: seq<Row>, a: Account, x: real)
    ensures Sum(rows, DayAfter(a, x)) <= Sum(rows, CompletedDay(a, x)) + Sum(rows, AllPending(a))
  {
    if rows != [] {
      DayParts(rows[..|rows| - 1], a, x);
    }
  }

  lemma {:induction false} InsertKeepsSolventApart(s: State, step: Step, a: Account, k: nat)
    requires SolventApart(s, a, k) && Enabled(s, step) && step.Insert?
    requires Count(Apply(s, step).rows, AllPending(a)) <= k
    ensures SolventApart(Apply(s, step), a, k)
  {
    hide Sum, Count;
    var r := Row(step.account, s.inflight[step.account].amount, Pending, step.at);
    var d, n := Deposited(s, a), Count(s.rows, AllPending(a));
    SumSnoc(s.rows, r, AllCompleted(a));
    SumSnoc(s.rows, r, AllPending(a));
    if step.account == a {
      SumBound(s.rows, AllPending(a), d);
      Multiples(n, k - 1, d);
      assert (k - 1) * d + d == k * d;
    }
  }

  lemma {:induction false} InsertKeepsCappedApart(s: State, step: Step, a: Account, k: nat, m: nat)
    requires CappedApart(s, a, k, m) && Enabled(s, step) && step.Insert?
    requires Count(Apply(s, step).rows, AllPending(a)) <= k
    ensures CappedApart(Apply(s, step), a, k, m)
  {
    hide Sum, Count;
    var b := step.account;
    var r, n := Row(b, s.inflight[b].amount, Pending, step.at), Count(s.rows, AllPending(a));
    SumSnoc(s.rows, r, AllPending(a));
    forall x: real
      ensures Sum(s.rows + [r], DayAfter(a, x)) <= k * m
      ensures Sum(s.rows + [r], CompletedDay(a, x)) == Sum(s.rows, CompletedDay(a, x))
    {
      SumSnoc(s.rows, r, DayAfter(a, x));
      SumSnoc(s.rows, r, CompletedDay(a, x));
      if Selects(DayAfter(a, x), r) {
        assert x >= step.at - DAY >= s.inflight[a].checkedAt - DAY;
        DayParts(s.rows, a, x);
        SumBound(s.rows, AllPending(a), m);
        Multiples(n, k - 1, m);
        assert (k - 1) * m + m == k * m;
      }
    }
  }

  lemma {:induction false} CheckLimitGivesRoomApart(s: State, step: Step, a: Account, m: nat)
    requires Enabled(s, step) && step.CheckLimit? && step.account == a && DailyLimit(step.limits, a.chain) <= m
    ensures RoomApart(s, a, m, s.inflight[a].amount, step.at)
  {
    forall x: real | x >= step.at - DAY
      ensures Sum(s.rows, CompletedDay(a, x)) + s.inflight[a].amount <= m
    {
      SumSubset(s.rows, CompletedDay(a, x), Last24h(a, step.at));
    }
  }

  lemma {:induction false} OthersKeepApart(s: State, step: Step, a: Account, k: nat, m: nat)
    requires SolventApart(s, a, k) && CappedApart(s, a, k, m) && Enabled(s, step)
    requires step.Confirm? || step.CheckBalance? || step.CheckLimit? || step.GiveUp? || step.Load?
    requires step.CheckLimit? && step.account == a ==> DailyLimit(step.limits, a.chain) <= m
    ensures SolventApart(Apply(s, step), a, k) && CappedApart(Apply(s, step), a, k, m)
  {
    hide Sum, Count;
    var t := Apply(s, step);
    assert t.rows == s.rows;
    Multiples(Deposited(s, a), Deposited(t, a), k);
    if step.CheckLimit? && step.account == a {
      CheckLimitGivesRoomApart(s, step, a, m);
    }
  }

  lemma {:induction false} StepKeepsApart(s: State, step: Step, a: Account, k: nat, m: nat)
    requires SolventApart(s, a, k) && CappedApart(s, a, k, m)
    requires Enabled(s, step) && Fresh(s, step) && StaysOut(s, step, a)
    requires Count(Apply(s, step).rows, AllPending(a)) <= k
    requires step.CheckLimit? && step.account == a ==> DailyLimit(step.limits, a.chain) <= m
    ensures SolventApart(Apply(s, step), a, k) && CappedApart(Apply(s, step), a, k, m)
  {
    hide SolventApart, CappedApart, Apply, Enabled, Fresh, Count, StaysOut;
    match step {
      case Insert(_, _) =>
        InsertKeepsSolventApart(s, step, a, k);
        InsertKeepsCappedApart(s, step, a, k, m);
      case Approve(_, _, _) =>
        ReviewKeepsSolventApart(s, step, a, k);
        ReviewKeepsCappedApart(s, step, a, k, m);
      case Reject(_, _) =>
        ReviewKeepsSolventApart(s, step, a, k);
        ReviewKeepsCappedApart(s, step, a, k, m);
      case _ => OthersKeepApart(s, step, a, k, m);
    }
  }

  lemma {:induction false} EmptyApart(a: Account, k: nat, m: nat)
    ensures SolventApart(EMPTY, a, k) && CappedApart(EMPTY, a, k, m)
  {
  }

  /**
   * When no approval of the account's rows falls between a balance check and its insert, the number of pending rows
   * alone counts: with at most k of them at a time, completed plus pending is at most k times the deposits, and the
   * withdrawals created in any 24 hours that are completed or may still be sum to at most k times the limit.
   */
  lemma {:induction false} BoundsByPendingRows(steps: seq<Step>, a: Account, k: nat, m: nat)
    requires Legal(steps) && Serialised(steps) && Apart(steps, a) && NeverMorePending(steps, a, k)
    requires LimitsAtMost(steps, a, m)
    ensures SolventApart(Run(steps), a, k) && CappedApart(Run(steps), a, k, m)
  {
    hide SolventApart, CappedApart, Apply, Enabled, Fresh, Count, StaysOut;
    if steps == [] {
      EmptyApart(a, k, m);
    } else {
      var p := steps[..|steps| - 1];
      BoundsByPendingRows(p, a, k, m);
      StepKeepsApart(Run(p), steps[|steps| - 1], a, k, m);
    }
  }

  // ---- No pending row, no row ----

  ghost predicate NoRows(s: State, a: Account) {
    forall i :: 0 <= i < |s.rows| ==> s.rows[i].account != a
  }

  lemma {:induction false} StepNoRows(s: State, step: Step, a: Account)
    requires NoRows(s, a) && Enabled(s, step) && Count(Apply(s, step).rows, AllPending(a)) == 0
    ensures NoRows(Apply(s, step), a)
  {
    hide Sum, Count;
    if step.Insert? {
      SumSnoc(s.rows, Row(step.account, s.inflight[step.account].amount, Pending, step.at), AllPending(a));
    }
  }

  /** An account that never has a pending row has no row at all, however reviews race. */
  lemma {:induction false} NeverPendingNoRows(steps: seq<Step>, a: Account)
    requires Legal(steps) && NeverMorePending(steps, a, 0)
    ensures NoRows(Run(steps), a)
  {
    if steps != [] {
      var p, e := steps[..|steps| - 1], steps[|steps| - 1];
      NeverPendingNoRows(p, a);
      StepNoRows(Run(p), e, a);
    }
  }

  lemma {:induction false} NoRowsNoSum(rows: seq<Row>, q: Query)
    requires forall i :: 0 <= i < |rows| ==> rows[i].account != q.account
    ensures Sum(rows, q) == 0
  {
    if rows != [] {
      NoRowsNoSum(rows[..|rows| - 1], q);
    }
  }
}

/** What any interleaving of deposits, requests and reviews keeps: solvency and the rolling limit, by open requests. */
module WithdrawalLaws {
  import opened Basics
  import opened Withdrawing

  // ---- Sums over the table ----

  lemma {:induction false} SumUpdate(rows: seq<Row>, i: nat, r: Row, q: Query)
    requires i < |rows|
    ensures Sum(rows[i := r], q) == Sum(rows, q) - Share(q, rows[i]) + Share(q, r)
    ensures Count(rows[i := r], q) ==
            Count(rows, q) - (if Selects(q, rows[i]) then 1 else 0) + if Selects(q, r) then 1 else 0
  {
    hide Selects;
    var n := |rows| - 1;
    if i < n {
      SumUpdate(rows[..n], i, r, q);
      assert rows[i := r][..n] == rows[..n][i := r];
    } else {
      assert rows[i := r][..n] == rows[..n];
    }
  }

  lemma {:induction false} SumSnoc(rows: seq<Row>, r: Row, q: Query)
    ensures Sum(rows + [r], q) == Sum(rows, q) + Share(q, r)
    ensures Count(rows + [r], q) == Count(rows, q) + if Selects(q, r) then 1 else 0
  {
    assert (rows + [r])[..|rows|] == rows;
  }

  lemma {:induction false} SumSubset(rows: seq<Row>, p: Query, q: Query)
    requires forall r :: Selects(p, r) ==> Selects(q, r)
    ensures Sum(rows, p) <= Sum(rows, q)
  {
    if rows != [] {
      SumSubset(rows[..|rows| - 1], p, q);
    }
  }

  /** Every selected row is at most m. */
  ghost predicate EachAtMost(rows: seq<Row>, q: Query, m: nat) {
    forall i :: 0 <= i < |rows| && Selects(q, rows[i]) ==> rows[i].amount <= m
  }

  lemma {:induction false} SumBound(rows: seq<Row>, q: Query, m: nat)
    requires EachAtMost(rows, q, m)
    ensures Sum(rows, q) <= Count(rows, q) * m
  {
    if rows != [] {
      var n := |rows| - 1;
      SumBound(rows[..n], q, m);
      if Selects(q, rows[n]) {
        assert (Count(rows[..n], q) + 1) * m == Count(rows[..n], q) * m + m;
      }
    }
  }

  lemma {:induction false} Multiples(n: nat, k: nat, m: nat)
    requires n <= k
    ensures n * m <= k * m
  {
    assert (k - n) * m >= 0;
  }

  // ---- Runs ----

  /** Every step can be taken. */
  ghost predicate Legal(steps: seq<Step>) {
    steps == [] || (Legal(steps[..|steps| - 1]) && Enabled(Run(steps[..|steps| - 1]), steps[|steps| - 1]))
  }

  /** A review settles a row that is still pending: no other review of the row came in between. */
  ghost predicate Fresh(s: State, step: Step) {
    match step
    case Approve(w, _, _) => w in s.reviews && s.reviews[w] < |s.rows| && s.rows[s.reviews[w]].status == Pending
    case Reject(w, _) => w in s.reviews && s.reviews[w] < |s.rows| && s.rows[s.reviews[w]].status == Pending
    case _ => true
  }

  ghost predicate Serialised(steps: seq<Step>) {
    steps == [] || (Serialised(steps[..|steps| - 1]) && Fresh(Run(steps[..|steps| - 1]), steps[|steps| - 1]))
  }

  /** The requests of an account that are undecided: pending rows, and a request under way. */
  function OpenRequests(s: State, a: Account): nat {
    Count(s.rows, AllPending(a)) + if a in s.inflight then 1 else 0
  }

  ghost predicate NeverMoreOpen(steps: seq<Step>, a: Account, k: nat) {
    OpenRequests(Run(steps), a) <= k && (steps == [] || NeverMoreOpen(steps[..|steps| - 1], a, k))
  }

  function UnderWay(s: State, a: Account): nat {
    if a in s.inflight then s.inflight[a].amount else 0
  }

  // ---- Solvency ----

  function Owed(s: State, a: Account): nat {
    Sum(s.rows, AllCompleted(a)) + Sum(s.rows, AllPending(a)) + UnderWay(s, a)
  }

  ghost predicate Solvent(s: State, a: Account, k: nat) {
    && Owed(s, a) <= k * Deposited(s, a)
    && EachAtMost(s.rows, AllPending(a), Deposited(s, a))
    && UnderWay(s, a) <= Deposited(s, a)
  }

  /** The rows of an account change only in these ways. */
  lemma {:induction false} SettleRow(rows: seq<Row>, id: nat, status: Status, a: Account, m: nat)
    requires id < |rows| && rows[id].status == Pending && status != Pending && EachAtMost(rows, AllPending(a), m)
    ensures var after := rows[id := rows[id].(status := status)];
            && EachAtMost(after, AllPending(a), m)
            && Count(after, AllPending(a)) <= Count(rows, AllPending(a))
            && (forall q: Query :: q.account == a && q.completed && q.pending ==> Sum(after, q) <= Sum(rows, q))
            && Sum(after, AllCompleted(a)) + Sum(after, AllPending(a)) <=
               Sum(rows, AllCompleted(a)) + Sum(rows, AllPending(a))
  {
    var r := rows[id].(status := status);
    SumUpdate(rows, id, r, AllPending(a));
    SumUpdate(rows, id, r, AllCompleted(a));
    forall q: Query | q.account == a && q.completed && q.pending
      ensures Sum(rows[id := r], q) <= Sum(rows, q)
    {
      SumUpdate(rows, id, r, q);
    }
  }

  ghost predicate Settles(rows: seq<Row>, after: seq<Row>, id: nat, status: Status) {
    id < |rows| && rows[id].status == Pending && status != Pending && after == rows[id := rows[id].(status := status)]
  }

  /** A review leaves deposits and requests alone and settles at most one pending row. */
  lemma {:induction false} ReviewEffect(s: State, step: Step)
    requires Enabled(s, step) && Fresh(s, step) && (step.Approve? || step.Reject?)
    ensures var t := Apply(s, step);
            && t.deposits == s.deposits && t.inflight == s.inflight
            && (t.rows == s.rows || exists id: nat, st: Status :: Settles(s.rows, t.rows, id, st))
  {
    var t := Apply(s, step);
    var id := s.reviews[step.admin];
    if t.rows != s.rows {
      assert Settles(s.rows, t.rows, id, t.rows[id].status);
    }
  }

  lemma {:induction false} ReviewKeepsSolvent(s: State, step: Step, a: Account, k: nat)
    requires Solvent(s, a, k) && Enabled(s, step) && Fresh(s, step) && (step.Approve? || step.Reject?)
    ensures Solvent(Apply(s, step), a, k)
  {
    var t := Apply(s, step);
    ReviewEffect(s, step);
    if t.rows != s.rows {
      var id: nat, st: Status :| Settles(s.rows, t.rows, id, st);
      SettleRow(s.rows, id, st, a, Deposited(s, a));
    }
  }

  lemma {:induction false} CheckKeepsSolvent(s: State, step: Step, a: Account, k: nat)
    requires Solvent(s, a, k) && Enabled(s, step) && step.CheckBalance? && OpenRequests(Apply(s, step), a) <= k
    ensures Solvent(Apply(s, step), a, k)
  {
    hide Sum, Count;
    if step.account == a {
      var d, n := Deposited(s, a), Count(s.rows, AllPending(a));
      SumBound(s.rows, AllPending(a), d);
      Multiples(n, k - 1, d);
      assert (k - 1) * d + d == k * d;
    }
  }

  lemma {:induction false} InsertKeepsSolvent(s: State, step: Step, a: Account, k: nat)
    requires Solvent(s, a, k) && Enabled(s, step) && step.Insert?
    ensures Solvent(Apply(s, step), a, k)
  {
    var r := Row(step.account, s.inflight[step.account].amount, Pending, step.at);
    SumSnoc(s.rows, r, AllCompleted(a));
    SumSnoc(s.rows, r, AllPending(a));
  }

  /** Deposits only grow, and a limit check, a retreat or a load moves no amount up. */
  lemma {:induction false} OthersKeepSolvent(s: State, step: Step, a: Account, k: nat)
    requires Solvent(s, a, k) && Enabled(s, step)
    requires step.Confirm? || step.CheckLimit? || step.GiveUp? || step.Load?
    ensures Solvent(Apply(s, step), a, k)
  {
    var t := Apply(s, step);
    assert t.rows == s.rows && UnderWay(t, a) <= UnderWay(s, a);
    Multiples(Deposited(s, a), Deposited(t, a), k);
  }

  lemma {:induction false} StepKeepsSolvent(s: State, step: Step, a: Account, k: nat)
    requires Solvent(s, a, k) && Enabled(s, step) && Fresh(s, step) && OpenRequests(Apply(s, step), a) <= k
    ensures Solvent(Apply(s, step), a, k)
  {
    hide Solvent, Apply, Enabled, Fresh, OpenRequests;
    match step {
      case CheckBalance(_, _, _) => CheckKeepsSolvent(s, step, a, k);
      case Insert(_, _) => InsertKeepsSolvent(s, step, a, k);
      case Approve(_, _, _) => ReviewKeepsSolvent(s, step, a, k);
      case Reject(_, _) => ReviewKeepsSolvent(s, step, a, k);
      case _ => OthersKeepSolvent(s, step, a, k);
    }
  }

  lemma {:induction false} EmptySolvent(a: Account, k: nat)
    ensures Solvent(EMPTY, a, k)
  {
  }

  /**
   * While an account never has more than k open requests, what it has withdrawn and what is still open stay within k
   * times its confirmed deposits, whatever interleaves.
   */
  lemma {:induction false} SolvencyByOpenRequests(steps: seq<Step>, a: Account, k: nat)
    requires Legal(steps) && Serialised(steps) && NeverMoreOpen(steps, a, k)
    ensures Solvent(Run(steps), a, k)
  {
    hide Solvent, Enabled, Fresh, OpenRequests, Apply;
    if steps == [] {
      EmptySolvent(a, k);
    } else {
      SolvencyByOpenRequests(steps[..|steps| - 1], a, k);
      StepKeepsSolvent(Run(steps[..|steps| - 1]), steps[|steps| - 1], a, k);
    }
  }

  // ---- The rolling limit ----

  /** The completed and pending rows created in the 24 hours after a moment. */
  function DayAfter(a: Account, s: real): Query {
    Query(a, true, true, Some(s), Some(s + DAY))
  }

  /** The limits the account's requests were checked against never exceed m. */
  ghost predicate LimitsAtMost(steps: seq<Step>, a: Account, m: nat) {
    forall i :: 0 <= i < |steps| && steps[i].CheckLimit? && steps[i].account == a ==>
      DailyLimit(steps[i].limits, a.chain) <= m
  }

  /** Every day that a row created from now on can fall into has room for the amount. */
  ghost predicate Room(s: State, a: Account, k: nat, m: nat, amount: nat, checkedAt: real) {
    && amount <= m
    && forall x: real :: x >= checkedAt - DAY ==> Sum(s.rows, DayAfter(a, x)) + amount <= k * m
  }

  /** Some limit bounds all that a run was checked against. */
  lemma {:induction false} TopLimit(steps: seq<Step>, a: Account) returns (m: nat)
    ensures LimitsAtMost(steps, a, m)
  {
    m := 0;
    if steps != [] {
      var n := |steps| - 1;
      m := TopLimit(steps[..n], a);
      if steps[n].CheckLimit? && DailyLimit(steps[n].limits, a.chain) > m {
        m := DailyLimit(steps[n].limits, a.chain);
      }
      assert forall i :: 0 <= i < n ==> steps[i] == steps[..n][i];
    }
  }

  ghost predicate Capped(s: State, a: Account, k: nat, m: nat) {
    && (forall x: real :: Sum(s.rows, DayAfter(a, x)) <= k * m)
    && EachAtMost(s.rows, AllPending(a), m)
    && (a in s.inflight && s.inflight[a].Cleared? ==> Room(s, a, k, m, s.inflight[a].amount, s.inflight[a].checkedAt))
  }

  /** The rows of a day are its completed ones, within the last 24 hours of any later check, and pending ones. */
  lemma {:induction false} DaySplits(rows: seq<Row>, a: Account, x: real, at: real)
    requires x >= at - DAY
    ensures Sum(rows, DayAfter(a, x)) <= Sum(rows, Last24h(a, at)) + Sum(rows, AllPending(a))
  {
    if rows != [] {
      DaySplits(rows[..|rows| - 1], a, x, at);
    }
  }

  lemma {:induction false} CheckLimitGivesRoom(s: State, step: Step, a: Account, k: nat, m: nat)
    requires Capped(s, a, k, m) && Enabled(s, step) && step.CheckLimit? && step.account == a
    requires DailyLimit(step.limits, a.chain) <= m && OpenRequests(s, a) <= k
    ensures Room(s, a, k, m, s.inflight[a].amount, step.at)
  {
    var amount, n := s.inflight[a].amount, Count(s.rows, AllPending(a));
    SumBound(s.rows, AllPending(a), m);
    Multiples(n, k - 1, m);
    assert (k - 1) * m + m == k * m;
    forall x: real | x >= step.at - DAY
      ensures Sum(s.rows, DayAfter(a, x)) + amount <= k * m
    {
      DaySplits(s.rows, a, x, step.at);
    }
  }

  lemma {:induction false} InsertKeepsCapped(s: State, step: Step, a: Account, k: nat, m: nat)
    requires Capped(s, a, k, m) && Enabled(s, step) && step.Insert?
    ensures Capped(Apply(s, step), a, k, m)
  {
    var b := step.account;
    var r := Row(b, s.inflight[b].amount, Pending, step.at);
    var t := Apply(s, step);
    hide Sum;
    forall x: real
      ensures Sum(t.rows, DayAfter(a, x)) <= k * m
    {
      SumSnoc(s.rows, r, DayAfter(a, x));
      if Selects(DayAfter(a, x), r) {
        assert x >= step.at - DAY >= s.inflight[a].checkedAt - DAY;
      }
    }
  }

  lemma {:induction false} ReviewKeepsCapped(s: State, step: Step, a: Account, k: nat, m: nat)
    requires Capped(s, a, k, m) && Enabled(s, step) && Fresh(s, step) && (step.Approve? || step.Reject?)
    ensures Capped(Apply(s, step), a, k, m)
  {
    var t := Apply(s, step);
    ReviewEffect(s, step);
    if t.rows != s.rows {
      var id: nat, st: Status :| Settles(s.rows, t.rows, id, st);
      SettleRow(s.rows, id, st, a, m);
      forall x: real
        ensures Sum(t.rows, DayAfter(a, x)) <= Sum(s.rows, DayAfter(a, x))
      {
      }
    }
  }

  lemma {:induction false} OthersKeepCapped(s: State, step: Step, a: Account, k: nat, m: nat)
    requires Capped(s, a, k, m) && Enabled(s, step) && OpenRequests(s, a) <= k
    requires step.Confirm? || step.CheckBalance? || step.CheckLimit? || step.GiveUp? || step.Load?
    requires step.CheckLimit? && step.account == a ==> DailyLimit(step.limits, a.chain) <= m
    ensures Capped(Apply(s, step), a, k, m)
  {
    hide OpenRequests;
    assert Apply(s, step).rows == s.rows;
    if step.CheckLimit? && step.account == a {
      CheckLimitGivesRoom(s, step, a, k, m);
    }
  }

  lemma {:induction false} StepKeepsCapped(s: State, step: Step, a: Account, k: nat, m: nat)
    requires Capped(s, a, k, m) && Enabled(s, step) && Fresh(s, step) && OpenRequests(s, a) <= k
    requires step.CheckLimit? && step.account == a ==> DailyLimit(step.limits, a.chain) <= m
    ensures Capped(Apply(s, step), a, k, m)
  {
    hide Capped, Apply, Enabled, Fresh, OpenRequests;
    match step {
      case Insert(_, _) => InsertKeepsCapped(s, step, a, k, m);
      case Approve(_, _, _) => ReviewKeepsCapped(s, step, a, k, m);
      case Reject(_, _) => ReviewKeepsCapped(s, step, a, k, m);
      case _ => OthersKeepCapped(s, step, a, k, m);
    }
  }

  lemma {:induction false} EmptyCapped(a: Account, k: nat, m: nat)
    ensures Capped(EMPTY, a, k, m)
  {
  }

  /**
   * While an account never has more than k open requests and its daily limit never exceeds m, the withdrawals created
   * in any 24 hours, not only those ending at a check, that are completed or may still be, sum to at most k times m.
   */
  lemma {:induction false} RollingLimit(steps: seq<Step>, a: Account, k: nat, m: nat)
    requires Legal(steps) && Serialised(steps) && NeverMoreOpen(steps, a, k) && LimitsAtMost(steps, a, m)
    ensures Capped(Run(steps), a, k, m)
  {
    hide Capped, Enabled, Fresh, OpenRequests, Apply;
    if steps == [] {
      EmptyCapped(a, k, m);
    } else {
      var p := steps[..|steps| - 1];
      RollingLimit(p, a, k, m);
      StepKeepsCapped(Run(p), steps[|steps| - 1], a, k, m);
    }
  }

  /** The same for completed withdrawals alone, over any day. */
  lemma {:induction false} CompletedInADay(steps: seq<Step>, a: Account, k: nat, m: nat, x: real)
    requires Legal(steps) && Serialised(steps) && NeverMoreOpen(steps, a, k) && LimitsAtMost(steps, a, m)
    ensures Sum(Run(steps).rows, Query(a, true, false, Some(x), Some(x + DAY))) <= k * m
  {
    RollingLimit(steps, a, k, m);
    SumSubset(Run(steps).rows, Query(a, true, false, Some(x), Some(x + DAY)), DayAfter(a, x));
  }
}

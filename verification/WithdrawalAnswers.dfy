/** What the withdrawal handlers answer and do, in terms of rows, amounts and hours alone. */
module WithdrawalAnswers {
  import opened Basics
  import opened Withdrawing
  import opened WithdrawalLaws

  /** The amounts of the rows that a condition picks. */
  function Value(rows: seq<Row>, keep: Row -> bool): nat {
    if rows == [] then 0
    else Value(rows[..|rows| - 1], keep) + if keep(rows[|rows| - 1]) then rows[|rows| - 1].amount else 0
  }

  function CompletedOf(a: Account): Row -> bool {
    (r: Row) => r.account == a && r.status == Completed
  }

  function PendingOf(a: Account): Row -> bool {
    (r: Row) => r.account == a && r.status == Pending
  }

  function CompletedSince(a: Account, moment: real): Row -> bool {
    (r: Row) => r.account == a && r.status == Completed && r.createdAt > moment
  }

  lemma {:induction false} SumIsValue(rows: seq<Row>, q: Query, keep: Row -> bool)
    requires forall r :: keep(r) <==> Selects(q, r)
    ensures Sum(rows, q) == Value(rows, keep)
  {
    hide Selects;
    if rows != [] {
      SumIsValue(rows[..|rows| - 1], q, keep);
    }
  }

  // ---- Requests ----

  ghost predicate WellFormed(amount: int, addressOk: bool) {
    amount > 0 && addressOk
  }

  /** At most 1 BTC or 10 ETH. */
  ghost predicate WithinCap(c: Chain, amount: int) {
    (c == BTC ==> amount <= 1_0000_0000) && (c == ETH ==> amount <= 10_0000_0000)
  }

  ghost predicate Affordable(s: State, a: Account, amount: int) {
    Value(s.rows, CompletedOf(a)) + amount <= if a in s.deposits then s.deposits[a] else 0
  }

  /** With what was completed in the last 24 hours the request stays within the limit of the user's level. */
  ghost predicate WithinDay(s: State, a: Account, amount: int, limits: Limits, at: real) {
    Value(s.rows, CompletedSince(a, at - 24.0)) + amount <=
    if a.chain == BTC then limits.btcDaily else if a.chain == ETH then limits.ethDaily else 0
  }

  ghost predicate BalanceRead(served: Served) {
    served.deposits && served.withdrawals
  }

  ghost predicate LimitRead(served: Served) {
    served.level && served.limit && served.used
  }

  lemma {:induction false} ChecksInWords(s: State, a: Account, amount: int, limits: Limits, at: real)
    requires amount > 0 && WithinCap(a.chain, amount) && a !in s.inflight
    ensures Enabled(s, CheckBalance(a, amount, Deposited(s, a))) <==> Affordable(s, a, amount)
    ensures Affordable(s, a, amount) ==>
              var balanced := Apply(s, CheckBalance(a, amount, Deposited(s, a)));
              Enabled(balanced, CheckLimit(a, limits, at)) <==> WithinDay(s, a, amount, limits, at)
  {
    hide Sum, Value;
    SumIsValue(s.rows, AllCompleted(a), CompletedOf(a));
    SumIsValue(s.rows, Last24h(a, at), CompletedSince(a, at - 24.0));
  }

  lemma {:induction false} CapInWords(a: Account, amount: int)
    ensures AmountAllowed(a, amount) <==> amount > 0 && WithinCap(a.chain, amount)
  {
  }

  /**
   * Every answer of the withdraw handler has its own condition on the request, the rows and the calls that were
   * served, and only a submission changes anything.
   */
  lemma {:induction false} AnswersExactly(s: State, a: Account, amount: int, addressOk: bool, limits: Limits, at: real,
                                          served: Served)
    ensures var (r, t) := Submit(s, a, amount, addressOk, limits, at, served);
            var asked := WellFormed(amount, addressOk);
            var capped := asked && WithinCap(a.chain, amount);
            var entered := capped && a !in s.inflight && served.lock;
            var covered := entered && BalanceRead(served) && Affordable(s, a, amount);
            var limited := covered && LimitRead(served) && WithinDay(s, a, amount, limits, at);
            && (r == BadRequest <==> !asked)
            && (r == OverSingleLimit <==> asked && !capped)
            && (r == Locked <==> capped && !entered)
            && (r == Insufficient <==> entered && BalanceRead(served) && !covered)
            && (r == OverDailyLimit <==> covered && LimitRead(served) && !limited)
            && (r == InternalError <==> (entered && !BalanceRead(served)) || (covered && !LimitRead(served)) ||
                                        (limited && !served.insert))
            && (r.Submitted? <==> limited && served.insert)
            && (!r.Submitted? ==> t == s)
  {
    hide Affordable, WithinDay, WithinCap, AmountAllowed, Enabled, Apply;
    CapInWords(a, amount);
    if amount > 0 && WithinCap(a.chain, amount) && a !in s.inflight {
      ChecksInWords(s, a, amount, limits, at);
    }
  }

  function RequestSteps(s: State, a: Account, amount: int, limits: Limits, at: real): seq<Step> {
    [CheckBalance(a, amount, Deposited(s, a)), CheckLimit(a, limits, at), Insert(a, at)]
  }

  lemma {:induction false} ThreeSteps(p: seq<Step>, a: Step, b: Step, c: Step)
    requires Legal(p) && Enabled(Run(p), a) && Enabled(Apply(Run(p), a), b)
    requires Enabled(Apply(Apply(Run(p), a), b), c)
    ensures Legal(p + [a, b, c]) && Run(p + [a, b, c]) == Apply(Apply(Apply(Run(p), a), b), c)
  {
    hide Apply, Enabled;
    var p1, p2, p3 := p + [a], p + [a, b], p + [a, b, c];
    assert p1[..|p1| - 1] == p && p2[..|p2| - 1] == p1 && p3[..|p3| - 1] == p2;
    assert Legal(p1) && Run(p1) == Apply(Run(p), a);
    assert Legal(p2) && Run(p2) == Apply(Run(p1), b);
  }

  lemma {:induction false} SubmitSteps(s: State, a: Account, amount: int, addressOk: bool, limits: Limits, at: real,
                                       served: Served)
    requires Submit(s, a, amount, addressOk, limits, at, served).0.Submitted?
    ensures var (r, t) := Submit(s, a, amount, addressOk, limits, at, served);
            var e := RequestSteps(s, a, amount, limits, at);
            && amount > 0 && a !in s.inflight && r == Submitted(|s.rows|)
            && Enabled(s, e[0]) && Enabled(Apply(s, e[0]), e[1]) && Enabled(Apply(Apply(s, e[0]), e[1]), e[2])
            && t == Apply(Apply(Apply(s, e[0]), e[1]), e[2])
            && t == s.(rows := s.rows + [Row(a, amount, Pending, at)])
  {
    hide Sum;
    assert s.inflight[a := Balanced(amount)][a := Cleared(amount, at)] - {a} == s.inflight;
  }

  /** A submission adds exactly one pending row to the table, and is a legal continuation of the run. */
  lemma {:induction false} SubmittedExactly(p: seq<Step>, a: Account, amount: int, addressOk: bool, limits: Limits,
                                            at: real, served: Served)
    requires Legal(p) && Submit(Run(p), a, amount, addressOk, limits, at, served).0.Submitted?
    ensures var s := Run(p);
            var (r, t) := Submit(s, a, amount, addressOk, limits, at, served);
            var steps := p + RequestSteps(s, a, amount, limits, at);
            && amount > 0 && r == Submitted(|s.rows|)
            && t == s.(rows := s.rows + [Row(a, amount, Pending, at)])
            && Legal(steps) && t == Run(steps)
  {
    hide Sum, Submit, Legal, Run;
    var s := Run(p);
    AnswersExactly(s, a, amount, addressOk, limits, at, served);
    ChecksInWords(s, a, amount, limits, at);
    var e := RequestSteps(s, a, amount, limits, at);
    ThreeSteps(p, e[0], e[1], e[2]);
    assert e == [e[0], e[1], e[2]];
    SubmitSteps(s, a, amount, addressOk, limits, at, served);
  }

  /**
   * In every legal run, an account without a request under way whose calls are all served is given its request if and
   * only if the amount is positive and within 1 BTC or 10 ETH, the completed withdrawals and it are covered by the
   * confirmed deposits, and with those of the last 24 hours it is within the daily limit.
   */
  lemma {:induction false} ServedExactly(p: seq<Step>, a: Account, amount: int, limits: Limits, at: real)
    requires Legal(p) && a !in Run(p).inflight
    ensures var s := Run(p);
            Submit(s, a, amount, true, limits, at, Served(true, true, true, true, true, true, true)).0.Submitted? <==>
              && amount > 0 && (a.chain == BTC ==> amount <= 1_0000_0000) && (a.chain == ETH ==> amount <= 10_0000_0000)
              && Value(s.rows, CompletedOf(a)) + amount <= (if a in s.deposits then s.deposits[a] else 0)
              && Value(s.rows, CompletedSince(a, at - 24.0)) + amount <=
                 (if a.chain == BTC then limits.btcDaily else if a.chain == ETH then limits.ethDaily else 0)
  {
    hide Submit, Run;
    AnswersExactly(Run(p), a, amount, true, limits, at, Served(true, true, true, true, true, true, true));
  }

  // ---- Reviews ----

  /** A row with another status and nothing else changed. */
  function Settled(rows: seq<Row>, id: nat, status: Status): seq<Row>
    requires id < |rows|
  {
    rows[id := Row(rows[id].account, rows[id].amount, status, rows[id].createdAt)]
  }

  /** What an approval does to the row that was loaded: nothing but the status and the broadcast. */
  lemma {:induction false} ApprovalExactly(s: State, admin: nat, broadcastOk: bool, writeOk: bool)
    requires admin in s.reviews && s.reviews[admin] < |s.rows|
    ensures var id, t := s.reviews[admin], Apply(s, Approve(admin, broadcastOk, writeOk));
            var sends := !s.rows[id].account.chain.Other? && broadcastOk;
            && t.sent == (if sends then s.sent + multiset{id} else s.sent)
            && t.rows == (if s.rows[id].account.chain.Other? || !writeOk then s.rows
                          else if broadcastOk then Settled(s.rows, id, Completed)
                          else Settled(s.rows, id, Failed))
            && t.deposits == s.deposits && t.inflight == s.inflight && t.reviews == s.reviews - {admin}
  {
  }

  lemma {:induction false} RejectionExactly(s: State, admin: nat, writeOk: bool)
    requires admin in s.reviews && s.reviews[admin] < |s.rows|
    ensures var id, t := s.reviews[admin], Apply(s, Reject(admin, writeOk));
            t == s.(rows := if writeOk then Settled(s.rows, id, Rejected) else s.rows, reviews := s.reviews - {admin})
  {
  }

  /** A review begins only on a row that is pending at that moment. */
  lemma {:induction false} LoadExactly(s: State, admin: nat, id: nat)
    ensures Enabled(s, Load(admin, id)) <==> admin !in s.reviews && id < |s.rows| && s.rows[id].status == Pending
    ensures Enabled(s, Load(admin, id)) ==> Apply(s, Load(admin, id)) == s.(reviews := s.reviews[admin := id])
  {
  }

  // ---- The laws, row by row ----

  function UndecidedInDay(a: Account, x: real): Row -> bool {
    (r: Row) => r.account == a && (r.status == Completed || r.status == Pending) && x < r.createdAt <= x + 24.0
  }

  /** With at most k undecided requests at a time completed and pending rows stay within k times the deposits. */
  lemma {:induction false} SolvencyInRows(steps: seq<Step>, a: Account, k: nat)
    requires Legal(steps) && Serialised(steps) && NeverMoreOpen(steps, a, k)
    ensures var s := Run(steps);
            Value(s.rows, CompletedOf(a)) + Value(s.rows, PendingOf(a)) <= k * Deposited(s, a)
  {
    hide Run;
    SolvencyByOpenRequests(steps, a, k);
    SumIsValue(Run(steps).rows, AllCompleted(a), CompletedOf(a));
    SumIsValue(Run(steps).rows, AllPending(a), PendingOf(a));
  }

  /** And what was created in any 24 hours and is completed, or may still be, within k times the daily limit. */
  lemma {:induction false} RollingLimitInRows(steps: seq<Step>, a: Account, k: nat, m: nat, x: real)
    requires Legal(steps) && Serialised(steps) && NeverMoreOpen(steps, a, k)
    requires forall i :: 0 <= i < |steps| && steps[i].CheckLimit? && steps[i].account == a ==>
               (a.chain == BTC ==> steps[i].limits.btcDaily <= m) && (a.chain == ETH ==> steps[i].limits.ethDaily <= m)
    ensures Value(Run(steps).rows, UndecidedInDay(a, x)) <= k * m
  {
    hide Run, Sum;
    RollingLimit(steps, a, k, m);
    SumIsValue(Run(steps).rows, DayAfter(a, x), UndecidedInDay(a, x));
  }
}

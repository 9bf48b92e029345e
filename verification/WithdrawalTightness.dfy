/** That the bounds on withdrawals are attained, and exactly when the promises made to the user and the house hold. */
module WithdrawalTightness {
  import opened Basics
  import opened Withdrawing
  import opened WithdrawalLaws
  import opened WithdrawalPending
  import opened WithdrawalPayouts

  /**
   * What a run may be asked to meet: reviews of a row are serialised, status writes are served, no approval falls into
   * a request of its account.
   */
  datatype Conditions = Conditions(serialised: bool, served: bool, apart: bool)

  ghost predicate Meets(steps: seq<Step>, a: Account, c: Conditions) {
    (c.serialised ==> Serialised(steps)) && (c.served ==> WritesServed(steps)) && (c.apart ==> Apart(steps, a))
  }

  // ---- Building runs ----

  const USER := Account("u", BTC)
  const NOW := 0.0

  ghost predicate Built(steps: seq<Step>, s: State, c: Conditions, open: nat, pending: nat, m: nat) {
    && Legal(steps) && Run(steps) == s && Meets(steps, USER, c)
    && NeverMoreOpen(steps, USER, open) && NeverMorePending(steps, USER, pending) && LimitsAtMost(steps, USER, m)
  }

  ghost predicate Fits(s: State, e: Step, t: State, c: Conditions, open: nat, pending: nat, m: nat) {
    && Enabled(s, e) && t == Apply(s, e)
    && (c.serialised ==> Fresh(s, e))
    && (c.served && (e.Approve? || e.Reject?) ==> e.writeOk)
    && (c.apart ==> StaysOut(s, e, USER))
    && OpenRequests(t, USER) <= open && Count(t.rows, AllPending(USER)) <= pending
    && (e.CheckLimit? && e.account == USER ==> DailyLimit(e.limits, USER.chain) <= m)
  }

  lemma {:induction false} Then(steps: seq<Step>, s: State, e: Step, t: State, c: Conditions, open: nat, pending: nat,
                                m: nat)
    requires Built(steps, s, c, open, pending, m) && Fits(s, e, t, c, open, pending, m)
    ensures Built(steps + [e], t, c, open, pending, m)
  {
    hide Apply, Enabled, Fresh, StaysOut, OpenRequests, Count;
    assert (steps + [e])[..|steps|] == steps;
  }

  lemma {:induction false} Nothing(c: Conditions, open: nat, pending: nat, m: nat)
    ensures Built([], EMPTY, c, open, pending, m)
  {
  }

  /** k requests of the whole deposit d, of which the first j have been approved. */
  function Approved(d: nat, k: nat, j: nat): (rows: seq<Row>)
    ensures |rows| == k
  {
    seq(k, i => Row(USER, d, if i < j then Completed else Pending, NOW))
  }

  function Overdrawn(d: nat, k: nat, j: nat): State {
    State(map[USER := d], Approved(d, k, j), map[], map[], multiset(seq(j, i => i)))
  }

  /** The day around the moment. */
  const TODAY := NOW - 1.0

  lemma {:induction false} CountApproved(d: nat, k: nat, j: nat)
    requires j <= k
    ensures Count(Approved(d, k, j), AllPending(USER)) == k - j
    ensures Sum(Approved(d, k, j), AllCompleted(USER)) == j * d
    ensures Sum(Approved(d, k, j), CompletedDay(USER, TODAY)) == j * d
    ensures j == 0 ==> Sum(Approved(d, k, j), Last24h(USER, NOW)) == 0
    decreases k
  {
    if k > 0 {
      var rows, i := Approved(d, k, j), if j < k then j else k - 1;
      assert rows[..k - 1] == Approved(d, k - 1, i);
      CountApproved(d, k - 1, i);
      assert (k - 1) * d + d == k * d;
    }
  }

  function CheckingBalance(d: nat): Step {
    CheckBalance(USER, d, d)
  }

  function CheckingLimit(d: nat): Step {
    CheckLimit(USER, Limits(d, d), NOW)
  }

  /** One more request for the whole deposit passes, as long as none is completed. */
  lemma {:induction false} SubmitSteps(d: nat, n: nat, c: Conditions, k: nat)
    requires 0 < d <= MAX_SINGLE_BTC && n < k
    ensures var s, t := Overdrawn(d, n, 0), Overdrawn(d, n + 1, 0);
            var s1 := Apply(s, CheckingBalance(d));
            var s2 := Apply(s1, CheckingLimit(d));
            && Fits(s, CheckingBalance(d), s1, c, k, k, d) && Fits(s1, CheckingLimit(d), s2, c, k, k, d)
            && Fits(s2, Step.Insert(USER, NOW), t, c, k, k, d)
  {
    hide Sum, Count;
    CountApproved(d, n, 0);
    CountApproved(d, n + 1, 0);
    var s3 := Apply(Apply(Apply(Overdrawn(d, n, 0), CheckingBalance(d)), CheckingLimit(d)), Step.Insert(USER, NOW));
    assert s3.rows == Approved(d, n + 1, 0);
    assert s3.inflight == map[];
  }

  lemma {:induction false} SubmitAgain(steps: seq<Step>, d: nat, n: nat, c: Conditions, k: nat)
    returns (more: seq<Step>)
    requires 0 < d <= MAX_SINGLE_BTC && n < k && Built(steps, Overdrawn(d, n, 0), c, k, k, d)
    ensures Built(more, Overdrawn(d, n + 1, 0), c, k, k, d)
  {
    hide Apply, Built, Fits, Overdrawn;
    var e1, e2, e3 := CheckingBalance(d), CheckingLimit(d), Step.Insert(USER, NOW);
    var s0 := Overdrawn(d, n, 0);
    var s1, s2 := Apply(s0, e1), Apply(Apply(s0, e1), e2);
    SubmitSteps(d, n, c, k);
    Then(steps, s0, e1, s1, c, k, k, d);
    Then(steps + [e1], s1, e2, s2, c, k, k, d);
    Then(steps + [e1] + [e2], s2, e3, Overdrawn(d, n + 1, 0), c, k, k, d);
    more := steps + [e1] + [e2] + [e3];
  }

  /** All k requests are submitted before any is decided. */
  lemma {:induction false} SubmitAll(d: nat, c: Conditions, k: nat) returns (steps: seq<Step>)
    requires 0 < d <= MAX_SINGLE_BTC
    ensures Built(steps, Overdrawn(d, k, 0), c, k, k, d)
  {
    Nothing(c, k, k, d);
    Then([], EMPTY, Confirm(USER, d), Overdrawn(d, 0, 0), c, k, k, d);
    steps := [] + [Confirm(USER, d)];
    for n := 0 to k
      invariant Built(steps, Overdrawn(d, n, 0), c, k, k, d)
    {
      hide Built;
      steps := SubmitAgain(steps, d, n, c, k);
    }
  }

  lemma {:induction false} ApproveSteps(d: nat, n: nat, j: nat, c: Conditions, open: nat, k: nat)
    requires j < n && n - j <= k <= open
    ensures var s, t := Overdrawn(d, n, j), Overdrawn(d, n, j + 1);
            Fits(s, Load(0, j), Apply(s, Load(0, j)), c, open, k, d) &&
              Fits(Apply(s, Load(0, j)), Approve(0, true, true), t, c, open, k, d)
  {
    hide Sum, Count;
    CountApproved(d, n, j);
    CountApproved(d, n, j + 1);
    var s2 := Apply(Apply(Overdrawn(d, n, j), Load(0, j)), Approve(0, true, true));
    assert s2.rows == Approved(d, n, j + 1);
    assert s2.reviews == map[];
    assert seq(j + 1, i => i) == seq(j, i => i) + [j];
  }

  /** The undecided requests are approved one after the other. */
  lemma {:induction false} ApproveAll(steps: seq<Step>, d: nat, n: nat, j: nat, c: Conditions, open: nat, k: nat)
    returns (more: seq<Step>)
    requires j <= n && n - j <= k <= open && Built(steps, Overdrawn(d, n, j), c, open, k, d)
    ensures Built(more, Overdrawn(d, n, n), c, open, k, d)
  {
    more := steps;
    for i := j to n
      invariant Built(more, Overdrawn(d, n, i), c, open, k, d)
    {
      hide Built, Fits, Apply;
      var s := Overdrawn(d, n, i);
      ApproveSteps(d, n, i, c, open, k);
      Then(more, s, Load(0, i), Apply(s, Load(0, i)), c, open, k, d);
      Then(more + [Load(0, i)], Apply(s, Load(0, i)), Approve(0, true, true), Overdrawn(d, n, i + 1), c, open, k, d);
      more := more + [Load(0, i)] + [Approve(0, true, true)];
    }
  }

  /**
   * k open requests can each pass for the whole deposit and the whole daily limit: the bounds of SolvencyByOpenRequests
   * and of RollingLimit are reached, by a run that meets every condition.
   */
  lemma {:induction false} BoundsAreReached(d: nat, k: nat) returns (steps: seq<Step>)
    requires 0 < d <= MAX_SINGLE_BTC
    ensures Legal(steps) && Serialised(steps) && WritesServed(steps) && Apart(steps, USER)
    ensures NeverMoreOpen(steps, USER, k) && LimitsAtMost(steps, USER, d)
    ensures Deposited(Run(steps), USER) == d && Sum(Run(steps).rows, AllCompleted(USER)) == k * d
    ensures Sum(Run(steps).rows, CompletedDay(USER, TODAY)) == k * d
  {
    var all := Conditions(true, true, true);
    var submitted := SubmitAll(d, all, k);
    steps := ApproveAll(submitted, d, k, 0, all, k, k);
    CountApproved(d, k, k);
  }

  // ---- An approval in the middle of a request ----

  /** A cleared request beside k rows, of which j have been approved. */
  function Squeezed(d: nat, k: nat, j: nat, reviews: map<nat, nat>): State {
    State(map[USER := d], Approved(d, k, j), map[USER := Cleared(d, NOW)], reviews, multiset(seq(j, i => i)))
  }

  /** A further request is checked while k rows are pending. */
  lemma {:induction false} CheckBesidePending(d: nat, k: nat, c: Conditions)
    requires 0 < d <= MAX_SINGLE_BTC
    ensures var s := Overdrawn(d, k, 0);
            var s1 := Apply(s, CheckingBalance(d));
            Fits(s, CheckingBalance(d), s1, c, k + 1, k, d) &&
              Fits(s1, CheckingLimit(d), Squeezed(d, k, 0, map[]), c, k + 1, k, d)
  {
    hide Sum, Count;
    CountApproved(d, k, 0);
  }

  /** One of the pending rows is approved before the request is inserted. */
  lemma {:induction false} ApproveBeside(d: nat, k: nat, c: Conditions)
    requires k >= 1 && !c.apart
    ensures var s2, s3, s4 := Squeezed(d, k, 0, map[]), Squeezed(d, k, 0, map[0 := 0]), Squeezed(d, k, 1, map[]);
            Fits(s2, Load(0, 0), s3, c, k + 1, k, d) && Fits(s3, Approve(0, true, true), s4, c, k + 1, k, d)
  {
    hide Sum, Count;
    CountApproved(d, k, 0);
    CountApproved(d, k, 1);
    var s4 := Apply(Squeezed(d, k, 0, map[0 := 0]), Approve(0, true, true));
    assert s4.rows == Approved(d, k, 1);
    assert map[0 := 0] - {0} == map[];
    assert seq(1, i => i) == [0] && seq(0, i => i) == [];
  }

  lemma {:induction false} InsertBeside(d: nat, k: nat, c: Conditions)
    requires k >= 1
    ensures Fits(Squeezed(d, k, 1, map[]), Step.Insert(USER, NOW), Overdrawn(d, k + 1, 1), c, k + 1, k, d)
  {
    hide Sum, Count;
    CountApproved(d, k + 1, 1);
    var s5 := Apply(Squeezed(d, k, 1, map[]), Step.Insert(USER, NOW));
    assert s5.rows == Approved(d, k + 1, 1);
    assert s5.inflight == map[];
  }

  lemma {:induction false} Squeeze(steps: seq<Step>, d: nat, k: nat, c: Conditions) returns (more: seq<Step>)
    requires 0 < d <= MAX_SINGLE_BTC && k >= 1 && !c.apart && Built(steps, Overdrawn(d, k, 0), c, k + 1, k, d)
    ensures Built(more, Overdrawn(d, k + 1, 1), c, k + 1, k, d)
  {
    hide Apply, Built, Fits, Overdrawn, Squeezed;
    var e1, e2, e3, e4, e5 := CheckingBalance(d), CheckingLimit(d), Load(0, 0), Approve(0, true, true),
      Step.Insert(USER, NOW);
    var s1, s2 := Apply(Overdrawn(d, k, 0), e1), Squeezed(d, k, 0, map[]);
    var s3, s4 := Squeezed(d, k, 0, map[0 := 0]), Squeezed(d, k, 1, map[]);
    CheckBesidePending(d, k, c);
    ApproveBeside(d, k, c);
    InsertBeside(d, k, c);
    Then(steps, Overdrawn(d, k, 0), e1, s1, c, k + 1, k, d);
    Then(steps + [e1], s1, e2, s2, c, k + 1, k, d);
    Then(steps + [e1] + [e2], s2, e3, s3, c, k + 1, k, d);
    Then(steps + [e1] + [e2] + [e3], s3, e4, s4, c, k + 1, k, d);
    Then(steps + [e1] + [e2] + [e3] + [e4], s4, e5, Overdrawn(d, k + 1, 1), c, k + 1, k, d);
    more := steps + [e1] + [e2] + [e3] + [e4] + [e5];
  }

  lemma {:induction false} WiderOpen(steps: seq<Step>, k: nat)
    requires NeverMoreOpen(steps, USER, k)
    ensures NeverMoreOpen(steps, USER, k + 1)
  {
    hide Run, OpenRequests;
    if steps != [] {
      WiderOpen(steps[..|steps| - 1], k);
    }
  }

  lemma {:induction false} WiderBuilt(steps: seq<Step>, s: State, c: Conditions, k: nat, m: nat)
    requires Built(steps, s, c, k, k, m)
    ensures Built(steps, s, c, k + 1, k, m)
  {
    WiderOpen(steps, k);
  }

  /** With never more than k pending rows, k + 1 times the deposit and the limit are reached: PendingAlone is tight. */
  lemma {:induction false} OneMoreThanPending(d: nat, k: nat) returns (steps: seq<Step>)
    requires 0 < d <= MAX_SINGLE_BTC && k >= 1
    ensures Legal(steps) && Serialised(steps) && WritesServed(steps)
    ensures NeverMorePending(steps, USER, k) && LimitsAtMost(steps, USER, d)
    ensures Deposited(Run(steps), USER) == d && Sum(Run(steps).rows, AllCompleted(USER)) == (k + 1) * d
    ensures Sum(Run(steps).rows, CompletedDay(USER, TODAY)) == (k + 1) * d
  {
    var c := Conditions(true, true, false);
    var submitted := SubmitAll(d, c, k);
    WiderBuilt(submitted, Overdrawn(d, k, 0), c, k, d);
    var squeezed := Squeeze(submitted, d, k, c);
    steps := ApproveAll(squeezed, d, k + 1, 1, c, k + 1, k);
    CountApproved(d, k + 1, k + 1);
  }

  // ---- Two administrators ----

  lemma {:induction false} SumOne(r: Row, x: Query)
    ensures Sum([r], x) == Share(x, r) && Count([r], x) == if Selects(x, r) then 1 else 0
  {
    assert [r][..0] == [];
  }

  lemma {:induction false} TwoRows(r: Row, q: Row, x: Query)
    ensures Sum([r, q], x) == Share(x, r) + Share(x, q)
    ensures Count([r, q], x) == (if Selects(x, r) then 1 else 0) + if Selects(x, q) then 1 else 0
    ensures Sum([r], x) == Share(x, r) && Count([r], x) == if Selects(x, r) then 1 else 0
  {
    hide Sum, Count;
    SumOne(r, x);
    SumSnoc([r], q, x);
    assert [r] + [q] == [r, q];
  }

  function UserRow(status: Status): Row {
    Row(USER, 1, status, NOW)
  }

  /** A state of the race: two rows at most, and who has loaded which. */
  function Race(rows: seq<Row>, reviews: map<nat, nat>, sent: multiset<nat>): State {
    State(map[USER := 1], rows, map[], reviews, sent)
  }

  /** Two administrators load the same pending request before either settles it. */
  lemma {:induction false} RaceToLoad(c: Conditions)
    ensures var rows := [UserRow(Pending)];
            var s1, s2 := Race(rows, map[1 := 0], multiset{}), Race(rows, map[1 := 0, 2 := 0], multiset{});
            Fits(Overdrawn(1, 1, 0), Load(1, 0), s1, c, 1, 1, 1) && Fits(s1, Load(2, 0), s2, c, 1, 1, 1)
  {
    hide Sum, Count;
    TwoRows(UserRow(Pending), UserRow(Pending), AllPending(USER));
    assert Approved(1, 1, 0) == [UserRow(Pending)] && multiset(seq(0, i => i)) == multiset{};
  }

  /** One of them rejects it. */
  lemma {:induction false} RaceToReject(c: Conditions)
    requires !c.serialised
    ensures var s2, s3 := Race([UserRow(Pending)], map[1 := 0, 2 := 0], multiset{}),
            Race([UserRow(Rejected)], map[2 := 0], multiset{});
            Fits(s2, Reject(1, true), s3, c, 1, 1, 1)
  {
    hide Sum, Count;
    TwoRows(UserRow(Rejected), UserRow(Pending), AllPending(USER));
    assert [UserRow(Pending)][0 := UserRow(Rejected)] == [UserRow(Rejected)];
    assert map[1 := 0, 2 := 0] - {1} == map[2 := 0];
  }

  /** The user asks again and passes. */
  lemma {:induction false} RaceToAsk(c: Conditions)
    ensures var s3, s6 := Race([UserRow(Rejected)], map[2 := 0], multiset{}),
            Race([UserRow(Rejected), UserRow(Pending)], map[2 := 0], multiset{});
            var s4 := Apply(s3, CheckingBalance(1));
            var s5 := Apply(s4, CheckingLimit(1));
            && Fits(s3, CheckingBalance(1), s4, c, 1, 1, 1) && Fits(s4, CheckingLimit(1), s5, c, 1, 1, 1)
            && Fits(s5, Step.Insert(USER, NOW), s6, c, 1, 1, 1)
  {
    hide Sum, Count;
    TwoRows(UserRow(Rejected), UserRow(Pending), AllPending(USER));
    TwoRows(UserRow(Rejected), UserRow(Pending), AllCompleted(USER));
    TwoRows(UserRow(Rejected), UserRow(Pending), Last24h(USER, NOW));
    assert [UserRow(Rejected)] + [UserRow(Pending)] == [UserRow(Rejected), UserRow(Pending)];
  }

  /** The second request is approved, and the other administrator approves the rejected one. */
  lemma {:induction false} RaceToApprove(c: Conditions)
    requires !c.serialised
    ensures var rows, done := [UserRow(Rejected), UserRow(Pending)], [UserRow(Rejected), UserRow(Completed)];
            var s6, s7 := Race(rows, map[2 := 0], multiset{}), Race(rows, map[2 := 0, 1 := 1], multiset{});
            var s8, s9 := Race(done, map[2 := 0], multiset{1}),
              Race([UserRow(Completed), UserRow(Completed)], map[], multiset{1, 0});
            && Fits(s6, Load(1, 1), s7, c, 1, 1, 1) && Fits(s7, Approve(1, true, true), s8, c, 1, 1, 1)
            && Fits(s8, Approve(2, true, true), s9, c, 1, 1, 1)
  {
    hide Sum, Count;
    TwoRows(UserRow(Rejected), UserRow(Pending), AllPending(USER));
    TwoRows(UserRow(Rejected), UserRow(Completed), AllPending(USER));
    TwoRows(UserRow(Completed), UserRow(Completed), AllPending(USER));
    assert map[2 := 0, 1 := 1] - {1} == map[2 := 0] && map[2 := 0] - {2} == map[];
    assert [UserRow(Rejected), UserRow(Pending)][1 := UserRow(Completed)] == [UserRow(Rejected), UserRow(Completed)];
    assert [UserRow(Rejected), UserRow(Completed)][0 := UserRow(Completed)] == [UserRow(Completed), UserRow(Completed)];
    assert multiset{} + multiset{1} == multiset{1} && multiset{1} + multiset{0} == multiset{1, 0};
  }

  lemma {:induction false} RunRace(start: seq<Step>, c: Conditions) returns (steps: seq<Step>)
    requires !c.serialised && Built(start, Overdrawn(1, 1, 0), c, 1, 1, 1)
    ensures Built(steps, Race([UserRow(Completed), UserRow(Completed)], map[], multiset{1, 0}), c, 1, 1, 1)
  {
    hide Built, Fits, Apply, Overdrawn, Race;
    RaceToLoad(c);
    RaceToReject(c);
    RaceToAsk(c);
    RaceToApprove(c);
    var rows, done := [UserRow(Rejected), UserRow(Pending)], [UserRow(Rejected), UserRow(Completed)];
    var s1, s2 := Race([UserRow(Pending)], map[1 := 0], multiset{}),
      Race([UserRow(Pending)], map[1 := 0, 2 := 0], multiset{});
    var s3, s6 := Race([UserRow(Rejected)], map[2 := 0], multiset{}), Race(rows, map[2 := 0], multiset{});
    var s4 := Apply(s3, CheckingBalance(1));
    var s5 := Apply(s4, CheckingLimit(1));
    var s7, s8 := Race(rows, map[2 := 0, 1 := 1], multiset{}), Race(done, map[2 := 0], multiset{1});
    Then(start, Overdrawn(1, 1, 0), Load(1, 0), s1, c, 1, 1, 1);
    steps := start + [Load(1, 0)];
    Then(steps, s1, Load(2, 0), s2, c, 1, 1, 1);
    steps := steps + [Load(2, 0)];
    Then(steps, s2, Reject(1, true), s3, c, 1, 1, 1);
    steps := steps + [Reject(1, true)];
    Then(steps, s3, CheckingBalance(1), s4, c, 1, 1, 1);
    steps := steps + [CheckingBalance(1)];
    Then(steps, s4, CheckingLimit(1), s5, c, 1, 1, 1);
    steps := steps + [CheckingLimit(1)];
    Then(steps, s5, Step.Insert(USER, NOW), s6, c, 1, 1, 1);
    steps := steps + [Step.Insert(USER, NOW)];
    Then(steps, s6, Load(1, 1), s7, c, 1, 1, 1);
    steps := steps + [Load(1, 1)];
    Then(steps, s7, Approve(1, true, true), s8, c, 1, 1, 1);
    steps := steps + [Approve(1, true, true)];
    var s9 := Race([UserRow(Completed), UserRow(Completed)], map[], multiset{1, 0});
    Then(steps, s8, Approve(2, true, true), s9, c, 1, 1, 1);
    steps := steps + [Approve(2, true, true)];
  }

  /**
   * Never more than one undecided request, every write served, and approvals out of the way of requests: still two
   * deposits' worth is completed, because an administrator approves a request that another has rejected meanwhile.
   */
  lemma {:induction false} RacingReviewsOverdraw() returns (steps: seq<Step>)
    ensures Legal(steps) && WritesServed(steps) && Apart(steps, USER)
    ensures NeverMoreOpen(steps, USER, 1) && NeverMorePending(steps, USER, 1) && LimitsAtMost(steps, USER, 1)
    ensures Run(steps) == Race([UserRow(Completed), UserRow(Completed)], map[], multiset{1, 0})
  {
    var c := Conditions(false, true, true);
    steps := SubmitAll(1, c, 1);
    steps := RunRace(steps, c);
  }

  // ---- Broadcasting twice ----

  lemma {:induction false} LostWriteSteps(c: Conditions, n: nat)
    requires !c.served
    ensures var rows := [UserRow(Pending)];
            var s, s1, t := Race(rows, map[], multiset{}[0 := n]), Race(rows, map[0 := 0], multiset{}[0 := n]),
              Race(rows, map[], multiset{}[0 := n + 1]);
            Fits(s, Load(0, 0), s1, c, 1, 1, 1) && Fits(s1, Approve(0, true, false), t, c, 1, 1, 1)
  {
    hide Sum, Count;
    TwoRows(UserRow(Pending), UserRow(Pending), AllPending(USER));
    assert map[0 := 0] - {0} == map[];
    assert multiset{}[0 := n] + multiset{0} == multiset{}[0 := n + 1];
  }

  /** The row stays pending when its status is not written after the broadcast, and is approved again. */
  lemma {:induction false} LostWriteSendsTwice() returns (steps: seq<Step>)
    ensures Legal(steps) && Serialised(steps) && Apart(steps, USER) && NeverMoreOpen(steps, USER, 1)
    ensures LimitsAtMost(steps, USER, 1)
    ensures Run(steps) == Race([UserRow(Pending)], map[], multiset{}[0 := 2])
  {
    var c := Conditions(true, false, true);
    steps := SubmitAll(1, c, 1);
    var rows := [UserRow(Pending)];
    assert Overdrawn(1, 1, 0) == Race(rows, map[], multiset{}[0 := 0]) by {
      assert Approved(1, 1, 0) == rows && multiset(seq(0, i => i)) == multiset{}[0 := 0];
    }
    for n := 0 to 2
      invariant Built(steps, Race(rows, map[], multiset{}[0 := n]), c, 1, 1, 1)
    {
      hide Built, Fits, Race;
      LostWriteSteps(c, n);
      var s, s1 := Race(rows, map[], multiset{}[0 := n]), Race(rows, map[0 := 0], multiset{}[0 := n]);
      Then(steps, s, Load(0, 0), s1, c, 1, 1, 1);
      Then(steps + [Load(0, 0)], s1, Approve(0, true, false), Race(rows, map[], multiset{}[0 := n + 1]), c, 1, 1, 1);
      steps := steps + [Load(0, 0)] + [Approve(0, true, false)];
    }
  }

  lemma {:induction false} RaceToSend(c: Conditions)
    requires !c.serialised
    ensures var s2, s3 := Race([UserRow(Pending)], map[1 := 0, 2 := 0], multiset{}),
            Race([UserRow(Completed)], map[2 := 0], multiset{0});
            Fits(s2, Approve(1, true, true), s3, c, 1, 1, 1)
  {
    hide Sum, Count;
    TwoRows(UserRow(Completed), UserRow(Pending), AllPending(USER));
    assert [UserRow(Pending)][0 := UserRow(Completed)] == [UserRow(Completed)];
    assert map[1 := 0, 2 := 0] - {1} == map[2 := 0];
    assert multiset{} + multiset{0} == multiset{0};
  }

  lemma {:induction false} RaceToSendAgain(c: Conditions)
    requires !c.serialised
    ensures var s3, s4 := Race([UserRow(Completed)], map[2 := 0], multiset{0}),
            Race([UserRow(Completed)], map[], multiset{0, 0});
            Fits(s3, Approve(2, true, true), s4, c, 1, 1, 1)
  {
    hide Sum, Count;
    TwoRows(UserRow(Completed), UserRow(Pending), AllPending(USER));
    assert [UserRow(Completed)][0 := UserRow(Completed)] == [UserRow(Completed)];
    assert map[2 := 0] - {2} == map[];
    assert multiset{0} + multiset{0} == multiset{0, 0};
  }

  /**
   * Two administrators load the same pending row before either settles it; the second approval is broadcast as well.
   */
  lemma {:induction false} RacingReviewsSendTwice() returns (steps: seq<Step>)
    ensures Legal(steps) && WritesServed(steps) && Run(steps) == Race([UserRow(Completed)], map[], multiset{0, 0})
  {
    hide Fits, Race;
    var c := Conditions(false, true, true);
    steps := SubmitAll(1, c, 1);
    RaceToLoad(c);
    RaceToSend(c);
    RaceToSendAgain(c);
    var rows, done := [UserRow(Pending)], [UserRow(Completed)];
    var s1, s2 := Race(rows, map[1 := 0], multiset{}), Race(rows, map[1 := 0, 2 := 0], multiset{});
    var s3, s4 := Race(done, map[2 := 0], multiset{0}), Race(done, map[], multiset{0, 0});
    Then(steps, Overdrawn(1, 1, 0), Load(1, 0), s1, c, 1, 1, 1);
    steps := steps + [Load(1, 0)];
    Then(steps, s1, Load(2, 0), s2, c, 1, 1, 1);
    steps := steps + [Load(2, 0)];
    Then(steps, s2, Approve(1, true, true), s3, c, 1, 1, 1);
    steps := steps + [Approve(1, true, true)];
    Then(steps, s3, Approve(2, true, true), s4, c, 1, 1, 1);
    steps := steps + [Approve(2, true, true)];
  }

  /** No row is broadcast twice, in the runs that meet the chosen conditions. */
  ghost predicate NeverSentTwice(serialised: bool, served: bool) {
    forall steps, id: nat ::
      Legal(steps) && (serialised ==> Serialised(steps)) && (served ==> WritesServed(steps)) ==>
        Run(steps).sent[id] <= 1
  }

  /** Both conditions are needed to rule out a second broadcast, and together they are enough. */
  lemma {:induction false} BroadcastOnceExactly(serialised: bool, served: bool)
    ensures NeverSentTwice(serialised, served) <==> serialised && served
  {
    if serialised && served {
      forall steps, id: nat | Legal(steps) && Serialised(steps) && WritesServed(steps)
        ensures Run(steps).sent[id] <= 1
      {
        BroadcastOnce(steps);
      }
    } else if serialised {
      var steps := LostWriteSendsTwice();
      assert Run(steps).sent[0 as nat] == 2;
    } else {
      var steps := RacingReviewsSendTwice();
      assert Run(steps).sent[0 as nat] == 2;
    }
  }

  // ---- The promises ----

  /** The runs with at most k undecided requests of the account that meet the conditions. */
  ghost predicate OpenRun(steps: seq<Step>, a: Account, k: nat, c: Conditions) {
    Legal(steps) && Meets(steps, a, c) && NeverMoreOpen(steps, a, k)
  }

  /** The runs with at most k pending rows of the account that meet the conditions. */
  ghost predicate PendingRun(steps: seq<Step>, a: Account, k: nat, c: Conditions) {
    Legal(steps) && Meets(steps, a, c) && NeverMorePending(steps, a, k)
  }

  ghost predicate Covered(steps: seq<Step>, a: Account) {
    Sum(Run(steps).rows, AllCompleted(a)) <= Deposited(Run(steps), a)
  }

  ghost predicate Limited(steps: seq<Step>, a: Account) {
    forall m: nat, x: real :: LimitsAtMost(steps, a, m) ==> Sum(Run(steps).rows, CompletedDay(a, x)) <= m
  }

  /** The same of the money that has left. */
  ghost predicate PaidCovered(steps: seq<Step>, a: Account) {
    PaidOut(Run(steps).rows, Run(steps).sent, a, ALWAYS) <= Deposited(Run(steps), a)
  }

  ghost predicate PaidLimited(steps: seq<Step>, a: Account) {
    forall m: nat, x: real :: LimitsAtMost(steps, a, m) ==>
      PaidOut(Run(steps).rows, Run(steps).sent, a, DayFrom(x)) <= m
  }

  lemma {:induction false} NothingPendingNothingPaid(steps: seq<Step>, a: Account, k: nat)
    requires NeverMorePending(steps, a, k) && k == 0 && Legal(steps)
    ensures Covered(steps, a) && Limited(steps, a) && PaidCovered(steps, a) && PaidLimited(steps, a)
  {
    NeverPendingNoRows(steps, a);
    var s := Run(steps);
    NoRowsNoSum(s.rows, AllCompleted(a));
    NoRowsNothingPaid(s.rows, s.sent, a, ALWAYS);
    forall x: real
      ensures Sum(s.rows, CompletedDay(a, x)) == 0 && PaidOut(s.rows, s.sent, a, DayFrom(x)) == 0
    {
      NoRowsNoSum(s.rows, CompletedDay(a, x));
      NoRowsNothingPaid(s.rows, s.sent, a, DayFrom(x));
    }
  }

  lemma {:induction false} TwoPaid(r: Row, sent: multiset<nat>, w: Window)
    requires Within(r, USER, w)
    ensures PaidOut([r, r], sent, USER, w) == (sent[0] + sent[1]) * r.amount
    ensures PaidOut([r], sent, USER, w) == sent[0] * r.amount
  {
    hide Within;
    assert [r, r][..1] == [r] && [r][..0] == [];
    assert PaidOut([r], sent, USER, w) == sent[0] * r.amount;
  }

  lemma {:induction false} RaceTotals()
    ensures var s := Race([UserRow(Completed), UserRow(Completed)], map[], multiset{1, 0});
            && Sum(s.rows, AllCompleted(USER)) == 2 && Sum(s.rows, CompletedDay(USER, TODAY)) == 2
            && PaidOut(s.rows, s.sent, USER, ALWAYS) == 2 && PaidOut(s.rows, s.sent, USER, DayFrom(TODAY)) == 2
  {
    var r := UserRow(Completed);
    TwoRows(r, r, AllCompleted(USER));
    TwoRows(r, r, CompletedDay(USER, TODAY));
    TwoPaid(r, multiset{1, 0}, ALWAYS);
    TwoPaid(r, multiset{1, 0}, DayFrom(TODAY));
  }

  lemma {:induction false} OneAtATime(steps: seq<Step>, a: Account)
    requires Legal(steps) && Serialised(steps) && Apart(steps, a) && NeverMorePending(steps, a, 1)
    ensures Covered(steps, a) && Limited(steps, a)
  {
    hide Legal, Run, NeverMorePending, Serialised, Apart, LimitsAtMost;
    var top := TopLimit(steps, a);
    BoundsByPendingRows(steps, a, 1, top);
    forall m: nat, x: real | LimitsAtMost(steps, a, m)
      ensures Sum(Run(steps).rows, CompletedDay(a, x)) <= m
    {
      BoundsByPendingRows(steps, a, 1, m);
      SumSubset(Run(steps).rows, CompletedDay(a, x), DayAfter(a, x));
    }
  }

  /**
   * The user's completed withdrawals stay within the deposits and every day within the limit, by undecided requests.
   */
  lemma {:induction false} PromisesByOpenRequests(k: nat, c: Conditions)
    ensures (forall steps, a :: OpenRun(steps, a, k, c) ==> Covered(steps, a)) <==> k == 0 || (k == 1 && c.serialised)
    ensures (forall steps, a :: OpenRun(steps, a, k, c) ==> Limited(steps, a)) <==> k == 0 || (k == 1 && c.serialised)
  {
    hide Legal, Run, NeverMoreOpen, NeverMorePending, Serialised, WritesServed, Apart, LimitsAtMost;
    forall steps, a | OpenRun(steps, a, k, c) && (k == 0 || (k == 1 && c.serialised))
      ensures Covered(steps, a) && Limited(steps, a)
    {
      if k == 0 {
        OpenBoundsPending(steps, a, 0);
        NothingPendingNothingPaid(steps, a, 0);
      } else {
        SolvencyByOpenRequests(steps, a, 1);
        forall m: nat, x: real | LimitsAtMost(steps, a, m)
          ensures Sum(Run(steps).rows, CompletedDay(a, x)) <= m
        {
          CompletedInADay(steps, a, 1, m, x);
        }
      }
    }
    if k >= 2 {
      var steps := BoundsAreReached(1, k);
      assert OpenRun(steps, USER, k, c) && !Covered(steps, USER);
      assert LimitsAtMost(steps, USER, 1) && !Limited(steps, USER);
    } else if k == 1 && !c.serialised {
      var steps := RacingReviewsOverdraw();
      RaceTotals();
      assert OpenRun(steps, USER, k, c) && !Covered(steps, USER);
      assert LimitsAtMost(steps, USER, 1) && !Limited(steps, USER);
    }
  }

  /** The same by pending rows alone: approvals have to keep out of requests as well. */
  lemma {:induction false} PromisesByPendingRows(k: nat, c: Conditions)
    ensures (forall steps, a :: PendingRun(steps, a, k, c) ==> Covered(steps, a)) <==>
            k == 0 || (k == 1 && c.serialised && c.apart)
    ensures (forall steps, a :: PendingRun(steps, a, k, c) ==> Limited(steps, a)) <==>
            k == 0 || (k == 1 && c.serialised && c.apart)
  {
    hide Legal, Run, NeverMoreOpen, NeverMorePending, Serialised, WritesServed, Apart, LimitsAtMost;
    forall steps, a | PendingRun(steps, a, k, c) && (k == 0 || (k == 1 && c.serialised && c.apart))
      ensures Covered(steps, a) && Limited(steps, a)
    {
      if k == 0 {
        NothingPendingNothingPaid(steps, a, 0);
      } else {
        OneAtATime(steps, a);
      }
    }
    if k >= 2 {
      var steps := BoundsAreReached(1, k);
      OpenBoundsPending(steps, USER, k);
      assert PendingRun(steps, USER, k, c) && !Covered(steps, USER);
      assert LimitsAtMost(steps, USER, 1) && !Limited(steps, USER);
    } else if k == 1 && !c.serialised {
      var steps := RacingReviewsOverdraw();
      RaceTotals();
      assert PendingRun(steps, USER, k, c) && !Covered(steps, USER);
      assert LimitsAtMost(steps, USER, 1) && !Limited(steps, USER);
    } else if k == 1 && !c.apart {
      var steps := OneMoreThanPending(1, 1);
      assert PendingRun(steps, USER, k, c) && !Covered(steps, USER);
      assert LimitsAtMost(steps, USER, 1) && !Limited(steps, USER);
    }
  }

  /** The money that leaves: status writes have to be served as well. */
  lemma {:induction false} PromisesOnPayouts(k: nat, c: Conditions)
    ensures (forall steps, a :: OpenRun(steps, a, k, c) ==> PaidCovered(steps, a)) <==>
            k == 0 || (k == 1 && c.serialised && c.served)
    ensures (forall steps, a :: OpenRun(steps, a, k, c) ==> PaidLimited(steps, a)) <==>
            k == 0 || (k == 1 && c.serialised && c.served)
  {
    hide Legal, Run, NeverMoreOpen, NeverMorePending, Serialised, WritesServed, Apart, LimitsAtMost;
    forall steps, a | OpenRun(steps, a, k, c) && (k == 0 || (k == 1 && c.serialised && c.served))
      ensures PaidCovered(steps, a) && PaidLimited(steps, a)
    {
      if k == 0 {
        OpenBoundsPending(steps, a, 0);
        NothingPendingNothingPaid(steps, a, 0);
      } else {
        var top := TopLimit(steps, a);
        PayoutsBounded(steps, a, 1, top, 0.0);
        forall m: nat, x: real | LimitsAtMost(steps, a, m)
          ensures PaidOut(Run(steps).rows, Run(steps).sent, a, DayFrom(x)) <= m
        {
          PayoutsBounded(steps, a, 1, m, x);
        }
      }
    }
    if k >= 2 {
      var steps := BoundsAreReached(1, k);
      var s := Run(steps);
      BroadcastOnce(steps);
      PaidIsCompleted(s.rows, s.sent, USER, ALWAYS);
      PaidIsCompleted(s.rows, s.sent, USER, DayFrom(TODAY));
      assert OpenRun(steps, USER, k, c) && !PaidCovered(steps, USER);
      assert LimitsAtMost(steps, USER, 1) && !PaidLimited(steps, USER);
    } else if k == 1 && !c.serialised {
      var steps := RacingReviewsOverdraw();
      RaceTotals();
      assert OpenRun(steps, USER, k, c) && !PaidCovered(steps, USER);
      assert LimitsAtMost(steps, USER, 1) && !PaidLimited(steps, USER);
    } else if k == 1 && !c.served {
      var steps := LostWriteSendsTwice();
      TwoPaid(UserRow(Pending), multiset{}[0 := 2], ALWAYS);
      TwoPaid(UserRow(Pending), multiset{}[0 := 2], DayFrom(TODAY));
      assert OpenRun(steps, USER, k, c) && !PaidCovered(steps, USER);
      assert LimitsAtMost(steps, USER, 1) && !PaidLimited(steps, USER);
    }
  }
}

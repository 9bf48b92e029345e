/** Withdrawals with manual review: requests checked against balance and rolling limit, then approved or rejected. */
module Withdrawing {
  import opened Basics

  /** Amounts are in units of 1e-8 coin, times in hours. */
  const DAY := 24.0
  const MAX_SINGLE_BTC := 1_0000_0000
  const MAX_SINGLE_ETH := 10_0000_0000

  /** The chain that a request names, which may be none of those supported. */
  datatype Chain = BTC | ETH | Other(name: string)
  datatype Account = Account(user: string, chain: Chain)
  datatype Status = Pending | Completed | Failed | Rejected
  datatype Row = Row(account: Account, amount: nat, status: Status, createdAt: real)

  /** The daily limits of the user's level. */
  datatype Limits = Limits(btcDaily: nat, ethDaily: nat)

  /** A request that holds the account's lock: past the balance check, or past the limit check as well. */
  datatype Submission = Balanced(amount: nat) | Cleared(amount: nat, checkedAt: real)

  /**
   * Confirmed deposits, the withdrawals table (a row's id is its index), the requests that hold a lock, what each
   * admin has loaded, and how often each row was broadcast.
   */
  datatype State = State(deposits: map<Account, nat>, rows: seq<Row>, inflight: map<Account, Submission>,
                         reviews: map<nat, nat>, sent: multiset<nat>)

  const EMPTY := State(map[], [], map[], map[], multiset{})

  function Deposited(s: State, a: Account): nat {
    if a in s.deposits then s.deposits[a] else 0
  }

  /** Which rows a sum ranges over: an account, statuses, and creation times after one moment, up to another. */
  datatype Query = Query(account: Account, completed: bool, pending: bool, after: Option<real>, upTo: Option<real>)

  predicate Selects(q: Query, r: Row) {
    && r.account == q.account
    && ((q.completed && r.status == Completed) || (q.pending && r.status == Pending))
    && (q.after.Some? ==> r.createdAt > q.after.value)
    && (q.upTo.Some? ==> r.createdAt <= q.upTo.value)
  }

  function Share(q: Query, r: Row): nat {
    if Selects(q, r) then r.amount else 0
  }

  function Sum(rows: seq<Row>, q: Query): nat {
    if rows == [] then 0 else Sum(rows[..|rows| - 1], q) + Share(q, rows[|rows| - 1])
  }

  function Count(rows: seq<Row>, q: Query): nat {
    if rows == [] then 0 else Count(rows[..|rows| - 1], q) + if Selects(q, rows[|rows| - 1]) then 1 else 0
  }

  function AllCompleted(a: Account): Query {
    Query(a, true, false, None, None)
  }

  function AllPending(a: Account): Query {
    Query(a, false, true, None, None)
  }

  /** The last 24 hours before a moment, without an upper end. */
  function Last24h(a: Account, at: real): Query {
    Query(a, true, false, Some(at - DAY), None)
  }

  function MaxSingle(c: Chain): Option<nat> {
    match c
    case BTC => Some(MAX_SINGLE_BTC)
    case ETH => Some(MAX_SINGLE_ETH)
    case Other(_) => None
  }

  function DailyLimit(l: Limits, c: Chain): nat {
    match c
    case BTC => l.btcDaily
    case ETH => l.ethDaily
    case Other(_) => 0
  }

  /**
   * The atomic steps. A request takes three, between which deposits are confirmed and reviews go on: the balance check,
   * which may have seen an older deposit total, the limit check, and the insert; or it gives up. A review takes two:
   * loading a pending row, and settling it, whatever has become of the row since.
   */
  datatype Step =
    | Confirm(account: Account, credit: nat)
    | CheckBalance(account: Account, amount: int, seen: nat)
    | CheckLimit(account: Account, limits: Limits, at: real)
    | Insert(account: Account, at: real)
    | GiveUp(account: Account)
    | Load(admin: nat, id: nat)
    | Approve(admin: nat, broadcastOk: bool, writeOk: bool)
    | Reject(admin: nat, writeOk: bool)

  predicate AmountAllowed(a: Account, amount: int) {
    amount > 0 && (MaxSingle(a.chain).Some? ==> amount <= MaxSingle(a.chain).value)
  }

  predicate Enabled(s: State, step: Step) {
    match step
    case Confirm(_, _) => true
    case CheckBalance(a, amount, seen) =>
      && a !in s.inflight
      && AmountAllowed(a, amount)
      && seen <= Deposited(s, a)
      && seen - Sum(s.rows, AllCompleted(a)) >= amount
    case CheckLimit(a, limits, at) =>
      && a in s.inflight && s.inflight[a].Balanced?
      && Sum(s.rows, Last24h(a, at)) + s.inflight[a].amount <= DailyLimit(limits, a.chain)
    case Insert(a, at) => a in s.inflight && s.inflight[a].Cleared? && s.inflight[a].checkedAt <= at
    case GiveUp(a) => a in s.inflight
    case Load(w, id) => w !in s.reviews && id < |s.rows| && s.rows[id].status == Pending
    case Approve(w, _, _) => w in s.reviews && s.reviews[w] < |s.rows|
    case Reject(w, _) => w in s.reviews && s.reviews[w] < |s.rows|
  }

  function Settle(s: State, id: nat, status: Status, writeOk: bool): State
    requires id < |s.rows|
  {
    if writeOk then s.(rows := s.rows[id := s.rows[id].(status := status)]) else s
  }

  /** A step that is not enabled does nothing. */
  function Apply(s: State, step: Step): State {
    if !Enabled(s, step) then s else
    match step
    case Confirm(a, credit) => s.(deposits := s.deposits[a := Deposited(s, a) + credit])
    case CheckBalance(a, amount, _) => s.(inflight := s.inflight[a := Balanced(amount)])
    case CheckLimit(a, _, at) => s.(inflight := s.inflight[a := Cleared(s.inflight[a].amount, at)])
    case Insert(a, at) =>
      s.(rows := s.rows + [Row(a, s.inflight[a].amount, Pending, at)], inflight := s.inflight - {a})
    case GiveUp(a) => s.(inflight := s.inflight - {a})
    case Load(w, id) => s.(reviews := s.reviews[w := id])
    case Approve(w, broadcastOk, writeOk) =>
      var id := s.reviews[w];
      var t := s.(reviews := s.reviews - {w});
      if s.rows[id].account.chain.Other? then t
      else if broadcastOk then Settle(t, id, Completed, writeOk).(sent := s.sent + multiset{id})
      else Settle(t, id, Failed, writeOk)
    case Reject(w, writeOk) =>
      Settle(s.(reviews := s.reviews - {w}), s.reviews[w], Rejected, writeOk)
  }

  function Run(steps: seq<Step>): State {
    if steps == [] then EMPTY else Apply(Run(steps[..|steps| - 1]), steps[|steps| - 1])
  }

  // ---- The handlers, when nothing interleaves ----

  datatype Response =
    | BadRequest
    | OverSingleLimit
    | Locked
    | Insufficient
    | OverDailyLimit
    | InternalError
    | Submitted(id: nat)

  /** Which calls of one request are served: the lock, the five reads in their order, and the insert. */
  datatype Served = Served(lock: bool, deposits: bool, withdrawals: bool, level: bool, limit: bool, used: bool,
                           insert: bool)

  /** The answer of the withdraw handler and the state it leaves. */
  function Submit(s: State, a: Account, amount: int, addressOk: bool, limits: Limits, at: real,
                  served: Served): (Response, State) {
    if amount <= 0 || !addressOk then (BadRequest, s)
    else if !AmountAllowed(a, amount) then (OverSingleLimit, s)
    else if a in s.inflight || !served.lock then (Locked, s)
    else if !served.deposits || !served.withdrawals then (InternalError, s)
    else if !Enabled(s, CheckBalance(a, amount, Deposited(s, a))) then (Insufficient, s)
    else if !served.level || !served.limit || !served.used then (InternalError, s)
    else
      var balanced := Apply(s, CheckBalance(a, amount, Deposited(s, a)));
      if !Enabled(balanced, CheckLimit(a, limits, at)) then (OverDailyLimit, s)
      else if !served.insert then (InternalError, s)
      else (Submitted(|s.rows|), Apply(Apply(balanced, CheckLimit(a, limits, at)), Insert(a, at)))
  }

  datatype Verdict = BadId | ListingFailed | NotPending | BroadcastFailed | Settled

  /** The pending rows with their ids, each once, the oldest first. */
  ghost predicate ListsPending(rows: seq<Row>, listed: seq<(nat, Row)>) {
    && (forall k :: 0 <= k < |listed| ==>
          listed[k].0 < |rows| && listed[k].1 == rows[listed[k].0] && listed[k].1.status == Pending)
    && (forall j, k :: 0 <= j < k < |listed| ==>
        listed[j].0 != listed[k].0 && listed[j].1.createdAt <= listed[k].1.createdAt)
    && (forall id: nat :: id < |rows| && rows[id].status == Pending ==>
        exists k :: 0 <= k < |listed| && listed[k].0 == id)
  }

  lemma {:induction false} OldestExists(rows: seq<Row>, ids: set<nat>) returns (id: nat)
    requires ids != {} && forall x :: x in ids ==> x < |rows|
    ensures id in ids && forall x :: x in ids ==> rows[id].createdAt <= rows[x].createdAt
    decreases |ids|
  {
    var y :| y in ids;
    var rest := ids - {y};
    id := y;
    if rest == {} {
      assert forall x :: x in ids ==> x == y || x in rest;
    } else {
      var z := OldestExists(rows, rest);
      id := if rows[y].createdAt <= rows[z].createdAt then y else z;
      assert forall x :: x in ids ==> x == y || x in rest;
    }
  }

  /** A listing under way: the ids still to come are pending rows, none of them older than a listed one. */
  ghost predicate ListsUpTo(rows: seq<Row>, listed: seq<(nat, Row)>, todo: set<nat>) {
    && (forall i :: i in todo ==> i < |rows| && rows[i].status == Pending)
    && (forall k :: 0 <= k < |listed| ==>
          listed[k].0 < |rows| && listed[k].1 == rows[listed[k].0] && listed[k].1.status == Pending &&
            listed[k].0 !in todo)
    && (forall j, k :: 0 <= j < k < |listed| ==>
        listed[j].0 != listed[k].0 && listed[j].1.createdAt <= listed[k].1.createdAt)
    && (forall k, i :: 0 <= k < |listed| && i in todo ==> listed[k].1.createdAt <= rows[i].createdAt)
    && (forall i: nat :: i < |rows| && rows[i].status == Pending ==>
        i in todo || exists k :: 0 <= k < |listed| && listed[k].0 == i)
  }

  lemma {:induction false} ListNext(rows: seq<Row>, listed: seq<(nat, Row)>, todo: set<nat>, id: nat)
    requires ListsUpTo(rows, listed, todo)
    requires id in todo && forall x :: x in todo ==> rows[id].createdAt <= rows[x].createdAt
    ensures ListsUpTo(rows, listed + [(id, rows[id])], todo - {id})
  {
    var after := listed + [(id, rows[id])];
    forall i: nat | i < |rows| && rows[i].status == Pending && i !in todo - {id}
      ensures exists k :: 0 <= k < |after| && after[k].0 == i
    {
      if i == id {
        assert after[|listed|].0 == i;
      } else {
        var k :| 0 <= k < |listed| && listed[k].0 == i;
        assert after[k].0 == i;
      }
    }
  }

  class WithdrawalDesk {
    var deposits: map<Account, nat>
    var rows: seq<Row>
    var inflight: map<Account, Submission>
    var reviews: map<nat, nat>
    ghost var sent: multiset<nat>

    ghost function Now(): State
      reads this
    {
      State(deposits, rows, inflight, reviews, sent)
    }

    constructor ()
      ensures Now() == EMPTY
    {
      deposits, rows, inflight, reviews, sent := map[], [], map[], map[], multiset{};
    }

    /** The SUM queries on the withdrawals table. */
    method Total(q: Query) returns (total: nat)
      ensures total == Sum(rows, q)
    {
      total := 0;
      for i := 0 to |rows|
        invariant total == Sum(rows[..i], q)
      {
        assert rows[..i + 1][..i] == rows[..i];
        if Selects(q, rows[i]) {
          total := total + rows[i].amount;
        }
      }
      assert rows[..|rows|] == rows;
    }

    method Withdraw(a: Account, amount: int, addressOk: bool, limits: Limits, at: real, served: Served)
      returns (r: Response)
      modifies this
      ensures (r, Now()) == Submit(old(Now()), a, amount, addressOk, limits, at, served)
    {
      if amount <= 0 || !addressOk {
        return BadRequest;
      }
      var cap := MaxSingle(a.chain);
      if cap.Some? && amount > cap.value {
        return OverSingleLimit;
      }
      if a in inflight || !served.lock {
        return Locked;
      }
      if !served.deposits {
        return InternalError;
      }
      var deposit := if a in deposits then deposits[a] else 0;
      if !served.withdrawals {
        return InternalError;
      }
      var withdrawn := Total(AllCompleted(a));
      var available: int := deposit as int - withdrawn as int;
      if available < amount {
        return Insufficient;
      }
      if !served.level || !served.limit || !served.used {
        return InternalError;
      }
      var used := Total(Last24h(a, at));
      if used + amount > DailyLimit(limits, a.chain) {
        return OverDailyLimit;
      }
      if !served.insert {
        return InternalError;
      }
      ghost var cleared := Cleared(amount, at);
      assert inflight[a := Balanced(amount)][a := cleared] - {a} == inflight;
      rows := rows + [Row(a, amount, Pending, at)];
      return Submitted(|rows| - 1);
    }

    /** The query for the pending rows. */
    method ListPending() returns (listed: seq<(nat, Row)>)
      ensures ListsPending(rows, listed)
    {
      listed := [];
      var todo := set i: nat | i < |rows| && rows[i].status == Pending;
      while todo != {}
        invariant ListsUpTo(rows, listed, todo)
        decreases |todo|
      {
        ghost var oldest := OldestExists(rows, todo);
        var id :| id in todo && forall x :: x in todo ==> rows[id].createdAt <= rows[x].createdAt;
        ListNext(rows, listed, todo, id);
        todo := todo - {id};
        listed := listed + [(id, rows[id])];
      }
    }

    /**
     * The listing and the search of both review handlers: whatever the order of the listing, the pending row of that
     * id.
     */
    method FindPending(id: nat) returns (found: Option<Row>)
      ensures found == if id < |rows| && rows[id].status == Pending then Some(rows[id]) else None
    {
      var listed := ListPending();
      found := None;
      var k := 0;
      while k < |listed|
        invariant 0 <= k <= |listed|
        invariant forall j :: 0 <= j < k ==> listed[j].0 != id
      {
        if listed[k].0 == id {
          return Some(listed[k].1);
        }
        k := k + 1;
      }
    }

    method ApproveWithdrawal(admin: nat, id: int, listOk: bool, broadcastOk: bool, writeOk: bool) returns (r: Verdict)
      requires admin !in reviews
      modifies this
      ensures r == if id < 0 then BadId else if !listOk then ListingFailed
                   else if !Enabled(old(Now()), Load(admin, id)) then NotPending
                   else if broadcastOk && !old(rows)[id].account.chain.Other? then Settled else BroadcastFailed
      ensures Now() == if r == Settled || r == BroadcastFailed
                       then Apply(Apply(old(Now()), Load(admin, id)), Approve(admin, broadcastOk, writeOk))
                       else old(Now())
    {
      if id < 0 {
        return BadId;
      }
      if !listOk {
        return ListingFailed;
      }
      var found := FindPending(id);
      if found.None? {
        return NotPending;
      }
      assert reviews[admin := id] - {admin} == reviews;
      if found.value.account.chain.Other? {
        return BroadcastFailed;
      }
      if !broadcastOk {
        if writeOk {
          rows := rows[id := rows[id].(status := Failed)];
        }
        return BroadcastFailed;
      }
      sent := sent + multiset{id};
      if writeOk {
        rows := rows[id := rows[id].(status := Completed)];
      }
      return Settled;
    }

    method RejectWithdrawal(admin: nat, id: int, listOk: bool, writeOk: bool) returns (r: Verdict)
      requires admin !in reviews
      modifies this
      ensures r == if id < 0 then BadId else if !listOk then ListingFailed
                   else if Enabled(old(Now()), Load(admin, id)) then Settled else NotPending
      ensures Now() == if r == Settled
                       then Apply(Apply(old(Now()), Load(admin, id)), Reject(admin, writeOk))
                       else old(Now())
    {
      if id < 0 {
        return BadId;
      }
      if !listOk {
        return ListingFailed;
      }
      var found := FindPending(id);
      if found.None? {
        return NotPending;
      }
      assert reviews[admin := id] - {admin} == reviews;
      if writeOk {
        rows := rows[id := rows[id].(status := Rejected)];
      }
      return Settled;
    }
  }
}

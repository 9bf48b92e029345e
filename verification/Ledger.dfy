/** From blocks to payouts: what is paid out is covered by deposits that the chain holds. */
module Ledgers {
  import opened Basics
  import opened Deposits
  import opened EndToEnd
  import Eth = EthWatching
  import Stable = EthStableChain
  import P = DepositPipeline
  import Confirming
  import W = Withdrawing
  import Laws = WithdrawalLaws
  import Payouts = WithdrawalPayouts

  function AccountOf(r: DepositRecord): W.Account {
    W.Account(r.userId, if r.chain.BTC? then W.BTC else W.ETH)
  }

  /** The amounts that a run's confirmations add to the balances, in order. */
  function Confirmations(steps: seq<W.Step>): seq<(W.Account, nat)> {
    if steps == [] then []
    else
      var e := steps[|steps| - 1];
      Confirmations(steps[..|steps| - 1]) + if e.Confirm? then [(e.account, e.credit)] else []
  }

  function Total(confirmations: seq<(W.Account, nat)>, a: W.Account): nat {
    if confirmations == [] then 0
    else
      var (b, credit) := confirmations[|confirmations| - 1];
      Total(confirmations[..|confirmations| - 1], a) + if a == b then credit else 0
  }

  lemma {:induction false} TotalSnoc(confirmations: seq<(W.Account, nat)>, b: W.Account, credit: nat, a: W.Account)
    ensures Total(confirmations + [(b, credit)], a) == Total(confirmations, a) + if a == b then credit else 0
  {
    assert (confirmations + [(b, credit)])[..|confirmations|] == confirmations;
  }

  lemma {:induction false} NothingConfirmed(a: W.Account)
    ensures Total([], a) == 0
  {
  }

  lemma {:induction false} DepositsAfter(s: W.State, e: W.Step, a: W.Account)
    ensures W.Deposited(W.Apply(s, e), a) == W.Deposited(s, a) + if e.Confirm? && e.account == a then e.credit else 0
  {
    hide W.Sum, W.Count;
  }

  /** A balance is what has been confirmed, and nothing else. */
  lemma {:induction false} DepositedIsConfirmed(steps: seq<W.Step>, a: W.Account)
    ensures W.Deposited(W.Run(steps), a) == Total(Confirmations(steps), a)
  {
    hide W.Enabled, W.Sum, Total;
    if steps == [] {
      assert Total([], a) == 0 by {
        NothingConfirmed(a);
      }
    } else {
      var n := |steps| - 1;
      var e := steps[n];
      DepositedIsConfirmed(steps[..n], a);
      DepositsAfter(W.Run(steps[..n]), e, a);
      if e.Confirm? {
        TotalSnoc(Confirmations(steps[..n]), e.account, e.credit, a);
      } else {
        assert Confirmations(steps) == Confirmations(steps[..n]);
      }
    }
  }

  /** The confirmations are of different rows of the table, each with the row's own account and amount. */
  ghost predicate ConfirmsRows(confirmations: seq<(W.Account, nat)>, rows: seq<DepositRecord>, ids: seq<nat>) {
    && |confirmations| == |ids|
    && (forall i :: 0 <= i < |ids| ==> ids[i] < |rows|)
    && (forall i, j :: 0 <= i < j < |ids| ==> ids[i] != ids[j])
    && (forall i :: 0 <= i < |ids| ==> confirmations[i] == (AccountOf(rows[ids[i]]), rows[ids[i]].amount))
  }

  function RowsAt(rows: seq<DepositRecord>, ids: seq<nat>): (s: seq<DepositRecord>)
    requires forall i :: 0 <= i < |ids| ==> ids[i] < |rows|
    ensures |s| == |ids|
  {
    seq(|ids|, i requires 0 <= i < |ids| => rows[ids[i]])
  }

  lemma {:induction false} TotalOfRows(confirmations: seq<(W.Account, nat)>, rows: seq<DepositRecord>, ids: seq<nat>,
                                       c: Chain, user: UserId, a: W.Account)
    requires ConfirmsRows(confirmations, rows, ids) && a == W.Account(user, if c.BTC? then W.BTC else W.ETH)
    ensures Total(confirmations, a) == Credit(RowsAt(rows, ids), c, user)
  {
    if ids != [] {
      var n := |ids| - 1;
      TotalOfRows(confirmations[..n], rows, ids[..n], c, user, a);
      assert RowsAt(rows, ids)[..n] == RowsAt(rows, ids[..n]);
    }
  }

  lemma {:induction false} CreditNothing(c: Chain, user: UserId)
    ensures Credit([], c, user) == 0
  {
  }

  /** Different rows of a table credit no more than the table. */
  lemma {:induction false} SomeRowsCredit(rows: seq<DepositRecord>, ids: seq<nat>, c: Chain, user: UserId)
    requires forall i :: 0 <= i < |ids| ==> ids[i] < |rows|
    requires forall i, j :: 0 <= i < j < |ids| ==> ids[i] != ids[j]
    ensures Credit(RowsAt(rows, ids), c, user) <= Credit(rows, c, user)
  {
    hide Credit;
    if ids == [] {
      CreditNothing(c, user);
    } else {
      assert ids[0] < |rows|;
      var n := |rows| - 1;
      assert rows == rows[..n] + [rows[n]];
      CreditSnoc(rows[..n], rows[n], c, user);
      if i :| 0 <= i < |ids| && ids[i] == n {
        var rest := ids[..i] + ids[i + 1..];
        var s := RowsAt(rows, ids);
        CreditRemove(s, i, c, user);
        assert RowsAt(rows[..n], rest) == s[..i] + s[i + 1..];
        SomeRowsCredit(rows[..n], rest, c, user);
      } else {
        assert RowsAt(rows[..n], ids) == RowsAt(rows, ids);
        SomeRowsCredit(rows[..n], ids, c, user);
      }
    }
  }

  lemma {:induction false} WithRowCredit(s: seq<DepositRecord>, rows: seq<DepositRecord>, c: Chain, user: UserId)
    ensures Credit(WithRow(s, rows), c, user) <= Credit(s, c, user)
  {
    hide Credit, HasTx;
    if s == [] {
      assert WithRow(s, rows) == s;
    } else {
      var n := |s| - 1;
      WithRowCredit(s[..n], rows, c, user);
      assert s == s[..n] + [s[n]];
      CreditSnoc(s[..n], s[n], c, user);
      CreditSnoc(WithRow(s[..n], rows), s[n], c, user);
      assert !HasTx(rows, s[n].txId) ==> WithRow(s, rows) == WithRow(s[..n], rows);
    }
  }

  /**
   * A run of the confirm checkers in which the rows of the table arrive unconfirmed, and the given ones end up
   * confirmed.
   */
  ghost predicate ConfirmedBy(checks: seq<Confirming.Step>, rows: seq<DepositRecord>, ids: seq<nat>) {
    && Confirming.Legal(map[], checks)
    && (forall k :: 0 <= k < |checks| && checks[k].Arrive? ==> !checks[k].deposit.confirmed)
    && (forall i :: 0 <= i < |ids| && ids[i] < |rows| ==>
          ids[i] in Confirming.Run(map[], checks).table &&
          Confirming.Run(map[], checks).table[ids[i]] ==
            Confirming.Deposit(rows[ids[i]].chain, rows[ids[i]].height, true))
  }

  /**
   * From blocks to payouts. For any failures and rescans of the watcher, any failures and interleavings of the
   * pipeline, any overlapping confirm checks and any interleaving of requests with serialised reviews and served
   * status writes: what is paid out to a user with at most k undecided requests at a time is at most k times the
   * confirmed rows of the user, and so at most k times what the user was sent on the chain; and each of those rows was
   * seen 12 blocks deep.
   */
  lemma {:induction false} PayoutsCoveredByChain(chain: nat -> EthBlock, registry: Registry, start: nat,
                                                 polls: seq<Eth.Poll>, steps: seq<P.Step>, checks: seq<Confirming.Step>,
                                                 desk: seq<W.Step>, ids: seq<nat>, user: UserId, k: nat)
    requires Eth.IsChain(chain) && Stable.UniqueTxs(chain) && Stable.StablePolls(polls, chain, registry)
    requires Fed(steps, ETH, Eth.Run(Eth.Start(chain(start)), polls).outbox)
    requires ConfirmsRows(Confirmations(desk), P.Run(steps).rows, ids) && ConfirmedBy(checks, P.Run(steps).rows, ids)
    requires Laws.Legal(desk) && Laws.Serialised(desk) && Payouts.WritesServed(desk)
    requires Laws.NeverMoreOpen(desk, W.Account(user, W.ETH), k)
    ensures var top := Stable.Highest(start, Eth.Run(Eth.Start(chain(start)), polls).history);
            var rows, a := P.Run(steps).rows, W.Account(user, W.ETH);
            var paid := Payouts.PaidOut(W.Run(desk).rows, W.Run(desk).sent, a, Payouts.ALWAYS);
            && paid <= k * Credit(RowsAt(rows, ids), ETH, user)
            && paid <= k * Credit(Stable.CleanScan(chain, registry, start, top), ETH, user)
            && forall i :: 0 <= i < |ids| ==>
                 Confirming.SawDeep(checks, Confirming.Deposit(rows[ids[i]].chain, rows[ids[i]].height, true))
  {
    hide P.Run, W.Run, Eth.Run, Stable.CleanScan, Stable.Highest, Fed, Stable.UniqueTxs, Credit, Confirmations, Total;
    var rows, a := P.Run(steps).rows, W.Account(user, W.ETH);
    var clean := Stable.CleanScan(chain, registry, start,
                                  Stable.Highest(start, Eth.Run(Eth.Start(chain(start)), polls).history));
    var m := Laws.TopLimit(desk, a);
    Payouts.PayoutsBounded(desk, a, k, m, 0.0);
    DepositedIsConfirmed(desk, a);
    TotalOfRows(Confirmations(desk), rows, ids, ETH, user, a);
    SomeRowsCredit(rows, ids, ETH, user);
    EthCreditedExactly(chain, registry, start, polls, steps, user, DepositRecord("", "", "", 0, 0, ETH));
    WithRowCredit(clean, rows, ETH, user);
    Laws.Multiples(Credit(RowsAt(rows, ids), ETH, user), Credit(clean, ETH, user), k);
    forall i | 0 <= i < |ids|
      ensures Confirming.SawDeep(checks, Confirming.Deposit(rows[ids[i]].chain, rows[ids[i]].height, true))
    {
      Confirming.ConfirmedOnlyIfDeep(map[], checks, ids[i]);
    }
  }
}

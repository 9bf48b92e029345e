/** What users are credited with, as sums over the payments on the chain. */
module Credits {
  import opened Basics
  import opened Deposits
  import opened EndToEnd
  import Eth = EthWatching
  import Stable = EthStableChain
  import Btc = BtcWatching
  import P = DepositPipeline
  import B = EndToEndBtc

  lemma {:induction false} CreditConcat(s: seq<DepositRecord>, t: seq<DepositRecord>, c: Chain, user: UserId)
    ensures Credit(s + t, c, user) == Credit(s, c, user) + Credit(t, c, user)
  {
    if t == [] {
      assert s + t == s;
    } else {
      CreditConcat(s, t[..|t| - 1], c, user);
      assert (s + t)[..|s + t| - 1] == s + t[..|t| - 1];
    }
  }

  lemma {:induction false} WithRowSnoc(s: seq<DepositRecord>, r: DepositRecord, rows: seq<DepositRecord>)
    ensures WithRow(s + [r], rows) == WithRow(s, rows) + if HasTx(rows, r.txId) then [r] else []
    ensures WithRow([], rows) == []
  {
    assert (s + [r])[..|s|] == s;
  }

  lemma {:induction false} WithRowConcat(s: seq<DepositRecord>, t: seq<DepositRecord>, rows: seq<DepositRecord>)
    ensures WithRow(s + t, rows) == WithRow(s, rows) + WithRow(t, rows)
  {
    hide HasTx, WithRow;
    if t == [] {
      assert s + t == s;
      WithRowSnoc([], DepositRecord("", "", "", 0, 0, BTC), rows);
    } else {
      var n := |t| - 1;
      WithRowConcat(s, t[..n], rows);
      WithRowSnoc(s + t[..n], t[n], rows);
      WithRowSnoc(t[..n], t[n], rows);
      assert s + t == s + t[..n] + [t[n]] && t == t[..n] + [t[n]];
    }
  }

  function CreditWithRow(s: seq<DepositRecord>, rows: seq<DepositRecord>, c: Chain, user: UserId): nat {
    Credit(WithRow(s, rows), c, user)
  }

  lemma {:induction false} CreditWithRowConcat(s: seq<DepositRecord>, t: seq<DepositRecord>, rows: seq<DepositRecord>,
                                               c: Chain, user: UserId)
    ensures CreditWithRow(s + t, rows, c, user) == CreditWithRow(s, rows, c, user) + CreditWithRow(t, rows, c, user)
    ensures CreditWithRow([], rows, c, user) == 0
  {
    WithRowConcat(s, t, rows);
    CreditConcat(WithRow(s, rows), WithRow(t, rows), c, user);
  }

  lemma {:induction false} CreditSingle(r: DepositRecord, c: Chain, user: UserId)
    ensures Credit([r], c, user) == if r.chain == c && r.userId == user then r.amount else 0
    ensures Credit([], c, user) == 0
  {
    assert [r][..0] == [];
  }

  lemma {:induction false} CreditOfOne(r: DepositRecord, rows: seq<DepositRecord>, c: Chain, user: UserId)
    ensures CreditWithRow([r], rows, c, user) ==
            if HasTx(rows, r.txId) && r.chain == c && r.userId == user then r.amount else 0
  {
    hide HasTx, WithRow, Credit;
    WithRowSnoc([], r, rows);
    assert [] + [r] == [r];
    CreditSingle(r, c, user);
  }

  // ---- Ethereum ----

  /** The payments among the transactions to addresses of the user, of transactions that count. */
  ghost function TxsTotal(txs: seq<EthTx>, registry: Registry, user: UserId, counts: TxHash -> bool): nat {
    if txs == [] then 0
    else
      var tx := txs[|txs| - 1];
      TxsTotal(txs[..|txs| - 1], registry, user, counts) +
      if tx.to.Some? && tx.to.value in registry && registry[tx.to.value] == user && counts(tx.hash) then tx.value else 0
  }

  /** The same over the blocks above from, up to upTo. */
  ghost function ChainTotal(chain: nat -> EthBlock, registry: Registry, from: nat, upTo: nat, user: UserId,
                            counts: TxHash -> bool): nat
    decreases upTo
  {
    if upTo <= from then 0
    else
      ChainTotal(chain, registry, from, upTo - 1, user, counts) + TxsTotal(chain(upTo).txs, registry, user, counts)
  }

  lemma {:induction false} TxsCredit(txs: seq<EthTx>, h: nat, registry: Registry, user: UserId,
                                     rows: seq<DepositRecord>, counts: TxHash -> bool)
    requires forall t :: counts(t) <==> HasTx(rows, t)
    ensures CreditWithRow(EthDeposits(txs, h, registry), rows, ETH, user) == TxsTotal(txs, registry, user, counts)
  {
    hide HasTx, CreditWithRow;
    if txs == [] {
      CreditWithRowConcat([], [], rows, ETH, user);
    } else {
      var n := |txs| - 1;
      TxsCredit(txs[..n], h, registry, user, rows, counts);
      var last := EthDeposit(txs[n], h, registry);
      CreditWithRowConcat(EthDeposits(txs[..n], h, registry), last, rows, ETH, user);
      if last == [] {
        CreditWithRowConcat([], [], rows, ETH, user);
      } else {
        CreditOfOne(last[0], rows, ETH, user);
        assert last == [last[0]];
      }
    }
  }

  lemma {:induction false} ScanCredit(chain: nat -> EthBlock, registry: Registry, from: nat, upTo: nat, user: UserId,
                                      rows: seq<DepositRecord>, counts: TxHash -> bool)
    requires forall t :: counts(t) <==> HasTx(rows, t)
    ensures CreditWithRow(Stable.CleanScan(chain, registry, from, upTo), rows, ETH, user) ==
            ChainTotal(chain, registry, from, upTo, user, counts)
    decreases upTo
  {
    hide HasTx, CreditWithRow, EthDeposits, TxsTotal;
    if upTo <= from {
      CreditWithRowConcat([], [], rows, ETH, user);
    } else {
      ScanCredit(chain, registry, from, upTo - 1, user, rows, counts);
      TxsCredit(chain(upTo).txs, upTo, registry, user, rows, counts);
      CreditWithRowConcat(Stable.CleanScan(chain, registry, from, upTo - 1),
                          EthDeposits(chain(upTo).txs, upTo, registry), rows, ETH, user);
    }
  }

  /**
   * At every moment of every run on a stable chain, a user's Ethereum rows sum to the payments to the user's addresses
   * in the blocks above the start up to the highest one scanned, of the transactions that had an insert served.
   */
  lemma {:induction false} EthCreditInPayments(chain: nat -> EthBlock, registry: Registry, start: nat,
                                               polls: seq<Eth.Poll>, steps: seq<P.Step>, user: UserId,
                                               counts: TxHash -> bool)
    requires Eth.IsChain(chain) && Stable.UniqueTxs(chain) && Stable.StablePolls(polls, chain, registry)
    requires Fed(steps, ETH, Eth.Run(Eth.Start(chain(start)), polls).outbox)
    requires forall t :: counts(t) <==> P.InsertServed(steps, t)
    ensures var top := Stable.Highest(start, Eth.Run(Eth.Start(chain(start)), polls).history);
            Credit(P.Run(steps).rows, ETH, user) == ChainTotal(chain, registry, start, top, user, counts)
  {
    hide P.Run, Eth.Run, Stable.CleanScan, Stable.Highest, Fed, Stable.UniqueTxs, Credit, P.InsertServed, HasTx;
    var top := Stable.Highest(start, Eth.Run(Eth.Start(chain(start)), polls).history);
    forall t
      ensures counts(t) <==> HasTx(P.Run(steps).rows, t)
    {
      P.RowExactly(steps, t);
    }
    EthCreditedExactly(chain, registry, start, polls, steps, user, DepositRecord("", "", "", 0, 0, ETH));
    ScanCredit(chain, registry, start, top, user, P.Run(steps).rows, counts);
  }

  // ---- Bitcoin ----

  /** The outputs to addresses of the user that decode, of a transaction that counts. */
  ghost function VoutsTotal(txid: TxHash, vouts: seq<Vout>, registry: Registry, decodes: Address -> bool, user: UserId,
                            counts: TxHash -> bool): nat {
    if vouts == [] then 0
    else
      var v := vouts[|vouts| - 1];
      VoutsTotal(txid, vouts[..|vouts| - 1], registry, decodes, user, counts) +
      if v.address != "" && decodes(v.address) && v.address in registry && registry[v.address] == user && counts(txid)
      then v.amount else 0
  }

  ghost function BlockTotal(block: BtcBlock, registry: Registry, decodes: Address -> bool, user: UserId,
                            counts: TxHash -> bool): nat {
    if block == [] then 0
    else
      var tx := block[|block| - 1];
      BlockTotal(block[..|block| - 1], registry, decodes, user, counts) +
      VoutsTotal(tx.txid, tx.vouts, registry, decodes, user, counts)
  }

  /** The same over the blocks that were loaded. */
  ghost function LoadedTotal(attempts: seq<Btc.Attempt>, decodes: Address -> bool, user: UserId,
                             counts: TxHash -> bool): nat {
    if attempts == [] then 0
    else
      var e := attempts[|attempts| - 1];
      LoadedTotal(attempts[..|attempts| - 1], decodes, user, counts) +
      if e.block.Some? then BlockTotal(e.block.value, e.registry, decodes, user, counts) else 0
  }

  lemma {:induction false} VoutsCredit(txid: TxHash, vouts: seq<Vout>, h: nat, registry: Registry,
                                       decodes: Address -> bool, user: UserId, rows: seq<DepositRecord>,
                                       counts: TxHash -> bool)
    requires forall t :: counts(t) <==> HasTx(rows, t)
    ensures CreditWithRow(VoutDeposits(txid, vouts, h, registry, decodes), rows, BTC, user) ==
            VoutsTotal(txid, vouts, registry, decodes, user, counts)
  {
    hide HasTx, CreditWithRow;
    if vouts == [] {
      CreditWithRowConcat([], [], rows, BTC, user);
    } else {
      var n := |vouts| - 1;
      VoutsCredit(txid, vouts[..n], h, registry, decodes, user, rows, counts);
      var last := VoutDeposit(txid, vouts[n], h, registry, decodes);
      CreditWithRowConcat(VoutDeposits(txid, vouts[..n], h, registry, decodes), last, rows, BTC, user);
      if last == [] {
        CreditWithRowConcat([], [], rows, BTC, user);
      } else {
        CreditOfOne(last[0], rows, BTC, user);
        assert last == [last[0]];
      }
    }
  }

  lemma {:induction false} BlockCredit(block: BtcBlock, h: nat, registry: Registry, decodes: Address -> bool,
                                       user: UserId, rows: seq<DepositRecord>, counts: TxHash -> bool)
    requires forall t :: counts(t) <==> HasTx(rows, t)
    ensures CreditWithRow(BtcDeposits(block, h, registry, decodes), rows, BTC, user) ==
            BlockTotal(block, registry, decodes, user, counts)
  {
    hide HasTx, CreditWithRow, VoutDeposits, VoutsTotal;
    if block == [] {
      CreditWithRowConcat([], [], rows, BTC, user);
    } else {
      var n := |block| - 1;
      BlockCredit(block[..n], h, registry, decodes, user, rows, counts);
      VoutsCredit(block[n].txid, block[n].vouts, h, registry, decodes, user, rows, counts);
      CreditWithRowConcat(BtcDeposits(block[..n], h, registry, decodes),
                          VoutDeposits(block[n].txid, block[n].vouts, h, registry, decodes), rows, BTC, user);
    }
  }

  lemma {:induction false} LoadedCredit(attempts: seq<Btc.Attempt>, decodes: Address -> bool, user: UserId,
                                        rows: seq<DepositRecord>, counts: TxHash -> bool)
    requires forall t :: counts(t) <==> HasTx(rows, t)
    ensures CreditWithRow(Btc.AllFound(attempts, decodes), rows, BTC, user) ==
            LoadedTotal(attempts, decodes, user, counts)
  {
    hide HasTx, CreditWithRow, BtcDeposits, BlockTotal;
    CreditWithRowConcat([], [], rows, BTC, user);
    if attempts != [] {
      var n := |attempts| - 1;
      var e := attempts[n];
      LoadedCredit(attempts[..n], decodes, user, rows, counts);
      CreditWithRowConcat(Btc.AllFound(attempts[..n], decodes), Btc.Found(e, decodes), rows, BTC, user);
      if e.block.Some? {
        BlockCredit(e.block.value, e.height, e.registry, decodes, user, rows, counts);
      }
    }
  }

  // ---- No transaction in two records ----

  lemma {:induction false} VoutsDistinct(chain: nat -> BtcBlock, registry: Registry, decodes: Address -> bool, h: nat,
                                         i: nat, n: nat)
    requires B.OnePaymentPerTx(chain, registry, decodes) && i < |chain(h)| && n <= |chain(h)[i].vouts|
    ensures DistinctTxs(VoutDeposits(chain(h)[i].txid, chain(h)[i].vouts[..n], h, registry, decodes))
  {
    if n > 0 {
      var txid, vouts := chain(h)[i].txid, chain(h)[i].vouts;
      VoutsDistinct(chain, registry, decodes, h, i, n - 1);
      assert vouts[..n][..n - 1] == vouts[..n - 1];
      var s := VoutDeposits(txid, vouts[..n - 1], h, registry, decodes);
      var t := VoutDeposit(txid, vouts[n - 1], h, registry, decodes);
      if t != [] && s != [] {
        var j := VoutDepositFrom(txid, vouts[..n - 1], h, registry, decodes, s[0]);
        assert B.Pays(chain, registry, decodes, h, i, j) && B.Pays(chain, registry, decodes, h, i, n - 1);
      }
    }
  }

  lemma {:induction false} NoneDistinct()
    ensures DistinctTxs([])
  {
  }

  lemma {:induction false} OtherPayment(chain: nat -> BtcBlock, registry: Registry, decodes: Address -> bool, h: nat,
                                        i: nat, j: nat, a: DepositRecord, g: nat, k: nat, l: nat, b: DepositRecord)
    requires B.OnePaymentPerTx(chain, registry, decodes) && (h != g || i != k)
    requires i < |chain(h)| && j < |chain(h)[i].vouts| && k < |chain(g)| && l < |chain(g)[k].vouts|
    requires VoutDeposit(chain(h)[i].txid, chain(h)[i].vouts[j], h, registry, decodes) == [a]
    requires VoutDeposit(chain(g)[k].txid, chain(g)[k].vouts[l], g, registry, decodes) == [b]
    ensures a.txId != b.txId
  {
    assert B.Pays(chain, registry, decodes, h, i, j) && B.Pays(chain, registry, decodes, g, k, l);
  }

  lemma {:induction false} BlockDistinct(chain: nat -> BtcBlock, registry: Registry, decodes: Address -> bool, h: nat,
                                         n: nat)
    requires B.OnePaymentPerTx(chain, registry, decodes) && n <= |chain(h)|
    ensures DistinctTxs(BtcDeposits(chain(h)[..n], h, registry, decodes))
  {
    hide VoutDeposits, VoutDeposit, DistinctTxs, B.OnePaymentPerTx;
    if n == 0 {
      NoneDistinct();
    } else {
      var block, tx := chain(h), chain(h)[n - 1];
      BlockDistinct(chain, registry, decodes, h, n - 1);
      VoutsDistinct(chain, registry, decodes, h, n - 1, |tx.vouts|);
      assert tx.vouts[..|tx.vouts|] == tx.vouts && block[..n][..n - 1] == block[..n - 1];
      var s := BtcDeposits(block[..n - 1], h, registry, decodes);
      var t := VoutDeposits(tx.txid, tx.vouts, h, registry, decodes);
      forall a, b | a in s && b in t
        ensures a.txId != b.txId
      {
        var i, j := BtcDepositFrom(block[..n - 1], h, registry, decodes, a);
        var l := VoutDepositFrom(tx.txid, tx.vouts, h, registry, decodes, b);
        OtherPayment(chain, registry, decodes, h, i, j, a, h, n - 1, l, b);
      }
      DistinctAppend(s, t);
    }
  }

  lemma {:induction false} LoadedDistinct(chain: nat -> BtcBlock, registry: Registry, decodes: Address -> bool,
                                          start: nat, attempts: seq<Btc.Attempt>)
    requires B.OnePaymentPerTx(chain, registry, decodes) && B.Genuine(attempts, chain, registry)
    requires forall i :: 0 <= i < |attempts| ==> attempts[i].height == start + 1 + i
    ensures DistinctTxs(Btc.AllFound(attempts, decodes))
  {
    hide BtcDeposits, DistinctTxs, B.OnePaymentPerTx, VoutDeposit;
    if attempts == [] {
      NoneDistinct();
    } else {
      var n := |attempts| - 1;
      var e := attempts[n];
      LoadedDistinct(chain, registry, decodes, start, attempts[..n]);
      var s, t := Btc.AllFound(attempts[..n], decodes), Btc.Found(e, decodes);
      if e.block.Some? {
        BlockDistinct(chain, registry, decodes, e.height, |chain(e.height)|);
        assert chain(e.height)[..|chain(e.height)|] == chain(e.height);
        forall a, b | a in s && b in t
          ensures a.txId != b.txId
        {
          var k := Btc.FoundFrom(attempts[..n], decodes, a);
          var i, j := BtcDepositFrom(chain(attempts[k].height), attempts[k].height, registry, decodes, a);
          var m, l := BtcDepositFrom(chain(e.height), e.height, registry, decodes, b);
          OtherPayment(chain, registry, decodes, attempts[k].height, i, j, a, e.height, m, l, b);
        }
      } else {
        NoneDistinct();
      }
      DistinctAppend(s, t);
    }
  }

  lemma {:induction false} ChainRows(rows: seq<DepositRecord>, c: Chain, outbox: seq<DepositRecord>)
    requires RowsOf(rows, c, outbox) && DistinctTxs(outbox)
    ensures forall r :: r in P.OfChain(rows, c) <==> r in WithRow(outbox, rows)
  {
    hide HasTx, DistinctTxs;
    WithRowMembers(outbox, rows);
    forall r
      ensures r in P.OfChain(rows, c) <==> r in WithRow(outbox, rows)
    {
      OfChainRows(rows, c, r);
      if r in rows {
        RowHasTx(rows, r);
      }
      if r in outbox && HasTx(rows, r.txId) {
        var q :| q in rows && q.chain == c && q.txId == r.txId;
        SameTxSameRecord(outbox, r, q);
      }
    }
  }

  /**
   * At every moment of every run on a stable chain whose transactions pay registered addresses at most once, a user's
   * Bitcoin rows sum to the outputs to the user's decodable addresses in the blocks that were loaded, of the
   * transactions that had an insert served.
   */
  lemma {:induction false} BtcCreditInPayments(chain: nat -> BtcBlock, registry: Registry, decodes: Address -> bool,
                                               start: nat, polls: seq<Btc.Poll>, steps: seq<P.Step>, user: UserId,
                                               counts: TxHash -> bool)
    requires B.OnePaymentPerTx(chain, registry, decodes) && B.StablePolls(polls, chain, registry)
    requires Fed(steps, BTC, Btc.Run(start, polls, decodes).outbox)
    requires forall t :: counts(t) <==> P.InsertServed(steps, t)
    ensures Credit(P.Run(steps).rows, BTC, user) ==
            LoadedTotal(Btc.Run(start, polls, decodes).attempts, decodes, user, counts)
  {
    hide P.Run, Btc.Run, Btc.AllFound, Fed, Credit, P.InsertServed, HasTx, P.OfChain, B.OnePaymentPerTx, B.StablePolls;
    var s, rows := Btc.Run(start, polls, decodes), P.Run(steps).rows;
    Btc.EveryHeightOnce(start, polls, decodes);
    B.RunGenuine(start, polls, chain, registry, decodes);
    LoadedDistinct(chain, registry, decodes, start, s.attempts);
    RowsUnique(steps);
    FedRows(steps, BTC, s.outbox);
    ChainRows(rows, BTC, s.outbox);
    CreditOfChain(rows, BTC, user);
    OfChainDistinct(rows, BTC);
    WithRowMembers(s.outbox, rows);
    SameRowsSameCredit(P.OfChain(rows, BTC), WithRow(s.outbox, rows), BTC, user);
    forall t
      ensures counts(t) <==> HasTx(rows, t)
    {
      P.RowExactly(steps, t);
    }
    LoadedCredit(s.attempts, decodes, user, rows, counts);
  }
}

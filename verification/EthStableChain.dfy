/** The Ethereum watcher over a chain that does not reorganise: failures and rescans leave no trace in the records. */
module EthStableChain {
  import opened Basics
  import opened Deposits
  import opened EthWatching

  /** Every successful answer comes from one chain; the tip may be anything and any call may fail. */
  ghost predicate Stable(v: PollView, chain: nat -> EthBlock) {
    forall h: nat ::
      && (v.fetch(h).Some? ==> v.fetch(h).value == chain(h))
      && (v.refetch(h).Some? ==> v.refetch(h).value == chain(h))
  }

  /** All polls see the chain, with one registry throughout. */
  ghost predicate StablePolls(polls: seq<Poll>, chain: nat -> EthBlock, registry: Registry) {
    forall i :: 0 <= i < |polls| ==> Stable(polls[i].view, chain) && polls[i].registry == registry
  }

  /** A transaction hash occurs once on the chain. */
  ghost predicate UniqueTxs(chain: nat -> EthBlock) {
    forall h: nat, g: nat, i, j :: 0 <= i < |chain(h).txs| && 0 <= j < |chain(g).txs| ==>
      chain(h).txs[i].hash == chain(g).txs[j].hash ==> h == g && i == j
  }

  function DepositsAt(chain: nat -> EthBlock, registry: Registry, h: nat): seq<DepositRecord> {
    EthDeposits(chain(h).txs, h, registry)
  }

  /** One clean scan of the heights above from, up to upTo. */
  function CleanScan(chain: nat -> EthBlock, registry: Registry, from: nat, upTo: nat): seq<DepositRecord>
    decreases upTo
  {
    if upTo <= from then [] else CleanScan(chain, registry, from, upTo - 1) + DepositsAt(chain, registry, upTo)
  }

  /** The highest block ever scanned. */
  function Highest(start: nat, history: seq<Move>): nat {
    if history == [] then start
    else
      var p := Highest(start, history[..|history| - 1]);
      var m := history[|history| - 1];
      if m.Accepted? && m.block.Number() > p then m.block.Number() else p
  }

  lemma {:induction false} CleanScanMembers(chain: nat -> EthBlock, registry: Registry, from: nat, upTo: nat,
                                            r: DepositRecord)
    ensures r in CleanScan(chain, registry, from, upTo) <==>
            exists h: nat :: from < h <= upTo && r in DepositsAt(chain, registry, h)
    decreases upTo
  {
    hide DepositsAt;
    if from < upTo {
      CleanScanMembers(chain, registry, from, upTo - 1, r);
      assert r in CleanScan(chain, registry, from, upTo) <==>
             r in CleanScan(chain, registry, from, upTo - 1) || r in DepositsAt(chain, registry, upTo);
    }
  }

  lemma {:induction false} DepositOrigin(chain: nat -> EthBlock, registry: Registry, h: nat, r: DepositRecord)
    returns (i: nat)
    requires r in DepositsAt(chain, registry, h)
    ensures i < |chain(h).txs| && r.txId == chain(h).txs[i].hash
  {
    i := DepositFrom(chain(h).txs, h, registry, r);
  }

  lemma {:induction false} BlockDistinct(chain: nat -> EthBlock, registry: Registry, h: nat, n: nat)
    requires UniqueTxs(chain) && n <= |chain(h).txs|
    ensures DistinctTxs(EthDeposits(chain(h).txs[..n], h, registry))
  {
    if n > 0 {
      var txs := chain(h).txs;
      BlockDistinct(chain, registry, h, n - 1);
      assert txs[..n][..n - 1] == txs[..n - 1];
      forall a | a in EthDeposits(txs[..n - 1], h, registry)
        ensures a.txId != txs[n - 1].hash
      {
        var i := DepositFrom(txs[..n - 1], h, registry, a);
        assert chain(h).txs[i].hash == a.txId;
      }
      DistinctAppend(EthDeposits(txs[..n - 1], h, registry), EthDeposit(txs[n - 1], h, registry));
    }
  }

  lemma {:induction false} CleanScanDistinct(chain: nat -> EthBlock, registry: Registry, from: nat, upTo: nat)
    requires UniqueTxs(chain)
    ensures DistinctTxs(CleanScan(chain, registry, from, upTo))
    decreases upTo
  {
    if from < upTo {
      CleanScanDistinct(chain, registry, from, upTo - 1);
      assert chain(upTo).txs[..|chain(upTo).txs|] == chain(upTo).txs;
      BlockDistinct(chain, registry, upTo, |chain(upTo).txs|);
      var s, t := CleanScan(chain, registry, from, upTo - 1), DepositsAt(chain, registry, upTo);
      forall a, b | a in s && b in t
        ensures a.txId != b.txId
      {
        CleanScanMembers(chain, registry, from, upTo - 1, a);
        var h: nat :| from < h <= upTo - 1 && a in DepositsAt(chain, registry, h);
        var i := DepositOrigin(chain, registry, h, a);
        var j := DepositOrigin(chain, registry, upTo, b);
      }
      DistinctAppend(s, t);
    }
  }

  /** After any run the records, less the repeats, are those of one clean scan up to the highest scanned block. */
  ghost predicate CleanRecords(chain: nat -> EthBlock, registry: Registry, start: nat, s: State) {
    && Inv(chain(start), s)
    && (exists h: nat :: s.lastHash == Some(chain(h)))
    && s.lastHash.value.Number() <= Highest(start, s.history)
    && FirstByTx(s.outbox) == CleanScan(chain, registry, start, Highest(start, s.history))
    && (forall r :: r in s.outbox ==> r in CleanScan(chain, registry, start, Highest(start, s.history)))
    && (forall h: nat :: start < h <= Highest(start, s.history) <==> HeightAccepted(s.history, h))
  }

  lemma {:induction false} AcceptedHeights(history: seq<Move>, m: Move)
    ensures forall h :: HeightAccepted(history + [m], h) <==>
                        HeightAccepted(history, h) || (m.Accepted? && m.block.Number() == h)
  {
    var all := history + [m];
    forall h
      ensures HeightAccepted(all, h) <==> HeightAccepted(history, h) || (m.Accepted? && m.block.Number() == h)
    {
      if HeightAccepted(history, h) {
        var i :| 0 <= i < |history| && history[i].Accepted? && history[i].block.Number() == h;
        assert all[i].Accepted? && all[i].block.Number() == h;
      }
      if m.Accepted? && m.block.Number() == h {
        assert all[|history|].Accepted? && all[|history|].block.Number() == h;
      }
      if HeightAccepted(all, h) {
        var i :| 0 <= i < |all| && all[i].Accepted? && all[i].block.Number() == h;
        assert i < |history| ==> history[i] == all[i];
      }
    }
  }

  /** Scanning an old height again adds nothing to the first occurrences; the next height adds its records. */
  lemma {:induction false} ScanHeight(chain: nat -> EthBlock, registry: Registry, start: nat,
                                      outbox: seq<DepositRecord>, top: nat, h: nat)
    requires UniqueTxs(chain) && FirstByTx(outbox) == CleanScan(chain, registry, start, top) && start < h <= top + 1
    requires forall r :: r in outbox ==> r in CleanScan(chain, registry, start, top)
    ensures FirstByTx(outbox + DepositsAt(chain, registry, h)) ==
            CleanScan(chain, registry, start, if h > top then h else top)
    ensures forall r :: r in outbox + DepositsAt(chain, registry, h) ==>
            r in CleanScan(chain, registry, start, if h > top then h else top)
  {
    var now := DepositsAt(chain, registry, h);
    forall r | r in now
      ensures r in CleanScan(chain, registry, start, if h > top then h else top)
    {
      CleanScanMembers(chain, registry, start, if h > top then h else top, r);
    }
    if h <= top {
      forall r | r in now
        ensures HasTx(FirstByTx(outbox), r.txId)
      {
        CleanScanMembers(chain, registry, start, top, r);
        var i :| 0 <= i < |FirstByTx(outbox)| && FirstByTx(outbox)[i] == r;
      }
      RepeatsChangeNothing(outbox, now);
    } else {
      CleanScanDistinct(chain, registry, start, h);
      assert CleanScan(chain, registry, start, h) == CleanScan(chain, registry, start, top) + now;
      NewOnesAppend(outbox, now);
    }
  }

  lemma {:induction false} AcceptClean(chain: nat -> EthBlock, registry: Registry, start: nat, s: State, h: nat)
    requires IsChain(chain) && UniqueTxs(chain) && CleanRecords(chain, registry, start, s)
    requires h > 0 && chain(h).ParentHash() == s.lastHash
    ensures CleanRecords(chain, registry, start,
                         State(s.lastHeight, Some(chain(h)), s.history + [Accepted(chain(h), registry)],
                               s.outbox + DepositsAt(chain, registry, h)))
  {
    hide UniqueTxs, DepositsAt, CleanScan, FirstByTx;
    var top := Highest(start, s.history);
    ChainNumber(chain, h);
    ChainNumber(chain, start);
    InvAccept(chain(start), s, chain(h), registry, s.outbox + DepositsAt(chain, registry, h));
    ScanHeight(chain, registry, start, s.outbox, top, h);
    AcceptedHeights(s.history, Accepted(chain(h), registry));
    assert (s.history + [Accepted(chain(h), registry)])[..|s.history|] == s.history;
  }

  lemma {:induction false} RealignClean(chain: nat -> EthBlock, registry: Registry, start: nat, s: State, h: nat)
    requires IsChain(chain) && CleanRecords(chain, registry, start, s) && start <= h <= s.lastHash.value.Number()
    ensures CleanRecords(chain, registry, start, State(h, Some(chain(h)), s.history + [Realigned(chain(h))], s.outbox))
  {
    ChainNumber(chain, h);
    ChainNumber(chain, start);
    InvRealign(chain(start), s, chain(h));
    var history := s.history + [Realigned(chain(h))];
    assert history[..|history| - 1] == s.history;
    AcceptedHeights(s.history, Realigned(chain(h)));
  }

  /** What the steps of a scan need to know of the cursors. */
  lemma {:induction false} Cursors(chain: nat -> EthBlock, registry: Registry, start: nat, s: State)
    requires IsChain(chain) && CleanRecords(chain, registry, start, s)
    ensures s.lastHash.Some? && start <= s.lastHeight <= s.lastHash.value.Number()
  {
    ChainNumber(chain, start);
  }

  lemma {:induction false} FinishClean(chain: nat -> EthBlock, registry: Registry, start: nat, s: State, tip: nat)
    requires CleanRecords(chain, registry, start, s) && s.lastHeight <= tip == s.lastHash.value.Number()
    ensures CleanRecords(chain, registry, start, s.(lastHeight := tip))
  {
  }

  lemma {:induction false} ScanFromClean(chain: nat -> EthBlock, registry: Registry, start: nat, s: State, h: nat,
                                         tip: nat, v: PollView)
    requires IsChain(chain) && UniqueTxs(chain) && Stable(v, chain) && CleanRecords(chain, registry, start, s)
    requires s.lastHeight < h <= tip + 1 && s.lastHash.value.Number() >= h - 1
    requires h > tip ==> s.lastHash.value.Number() == h - 1
    ensures CleanRecords(chain, registry, start, ScanFrom(s, h, tip, v, registry))
    decreases tip + 1 - h
  {
    hide CleanRecords, UniqueTxs;
    Cursors(chain, registry, start, s);
    if h > tip {
      FinishClean(chain, registry, start, s, tip);
    } else if v.fetch(h).Some? {
      ChainNumber(chain, h);
      if chain(h).ParentHash() == s.lastHash {
        AcceptClean(chain, registry, start, s, h);
        assert Process(s, h, v, registry).0 ==
          State(s.lastHeight, Some(chain(h)), s.history + [Accepted(chain(h), registry)],
                s.outbox + EthDeposits(chain(h).txs, h, registry));
        ScanFromClean(chain, registry, start, Process(s, h, v, registry).0, h + 1, tip, v);
      } else if v.refetch(h - 1).Some? {
        RealignClean(chain, registry, start, s, h - 1);
      }
    }
  }

  lemma {:induction false} ScanClean(chain: nat -> EthBlock, registry: Registry, start: nat, s: State, v: PollView)
    requires IsChain(chain) && UniqueTxs(chain) && Stable(v, chain) && CleanRecords(chain, registry, start, s)
    ensures CleanRecords(chain, registry, start, Scan(s, v, registry))
  {
    hide CleanRecords, UniqueTxs, Stable;
    Cursors(chain, registry, start, s);
    if v.tip.Some? && v.tip.value > s.lastHeight {
      ScanFromClean(chain, registry, start, s, s.lastHeight + 1, v.tip.value, v);
    }
  }

  lemma {:induction false} RunClean(chain: nat -> EthBlock, registry: Registry, start: nat, polls: seq<Poll>)
    requires IsChain(chain) && UniqueTxs(chain) && StablePolls(polls, chain, registry)
    ensures CleanRecords(chain, registry, start, Run(Start(chain(start)), polls))
  {
    if polls == [] {
      ChainNumber(chain, start);
      assert Start(chain(start)).lastHash == Some(chain(start));
    } else {
      var n := |polls| - 1;
      RunClean(chain, registry, start, polls[..n]);
      ScanClean(chain, registry, start, Run(Start(chain(start)), polls[..n]), polls[n].view);
    }
  }

  /**
   * Records of a stable chain, for any failures, false reorgs and rescans: the stream of records without repeats is
   * the clean scan of exactly the accepted heights, which have no hole and include every height up to the cursor; a
   * repeated record is the same record.
   */
  lemma {:induction false} RecordsOfStableChain(chain: nat -> EthBlock, registry: Registry, start: nat,
                                                polls: seq<Poll>)
    requires IsChain(chain) && UniqueTxs(chain) && StablePolls(polls, chain, registry)
    ensures var s := Run(Start(chain(start)), polls);
            var top := Highest(start, s.history);
            && FirstByTx(s.outbox) == CleanScan(chain, registry, start, top)
            && (forall r :: r in s.outbox ==> r in CleanScan(chain, registry, start, top))
            && s.lastHeight <= top
            && forall h: nat :: start < h <= top <==> HeightAccepted(s.history, h)
  {
    RunClean(chain, registry, start, polls);
  }
}

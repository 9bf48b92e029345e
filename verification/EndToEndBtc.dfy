/** Bitcoin watcher, pipeline, table and reconciler together: what the watcher missed, the reconciler reports. */
module EndToEndBtc {
  import opened Basics
  import opened Deposits
  import opened EndToEnd
  import Btc = BtcWatching
  import P = DepositPipeline
  import R = Reconciling
  import Laws = ReconcilerLaws

  /** A transaction id occurs in one block only. */
  ghost predicate OneBlockPerTx(chain: nat -> BtcBlock) {
    forall h: nat, g: nat, i, j :: 0 <= i < |chain(h)| && 0 <= j < |chain(g)| ==>
      chain(h)[i].txid == chain(g)[j].txid ==> h == g
  }

  ghost predicate Stable(v: Btc.PollView, chain: nat -> BtcBlock) {
    forall h: nat :: v.Load(h).Some? ==> v.Load(h).value == chain(h)
  }

  ghost predicate StablePolls(polls: seq<Btc.Poll>, chain: nat -> BtcBlock, registry: Registry) {
    forall i :: 0 <= i < |polls| ==> Stable(polls[i].view, chain) && polls[i].registry == registry
  }

  /** Every loaded block is the one of the chain, searched with the registry. */
  ghost predicate Genuine(attempts: seq<Btc.Attempt>, chain: nat -> BtcBlock, registry: Registry) {
    forall i :: 0 <= i < |attempts| ==>
      attempts[i].registry == registry &&
        (attempts[i].block.Some? ==> attempts[i].block.value == chain(attempts[i].height))
  }

  lemma {:induction false} ScanFromGenuine(s: Btc.State, h: nat, tip: nat, v: Btc.PollView, chain: nat -> BtcBlock,
                                           registry: Registry, decodes: Address -> bool)
    requires Genuine(s.attempts, chain, registry) && Stable(v, chain)
    ensures Genuine(Btc.ScanFrom(s, h, tip, v, registry, decodes).attempts, chain, registry)
    decreases tip + 1 - h
  {
    if h <= tip {
      ScanFromGenuine(Btc.Process(s, h, v, registry, decodes), h + 1, tip, v, chain, registry, decodes);
    }
  }

  lemma {:induction false} RunGenuine(start: nat, polls: seq<Btc.Poll>, chain: nat -> BtcBlock, registry: Registry,
                                      decodes: Address -> bool)
    requires StablePolls(polls, chain, registry)
    ensures Genuine(Btc.Run(start, polls, decodes).attempts, chain, registry)
  {
    if polls != [] {
      var n := |polls| - 1;
      var s, v := Btc.Run(start, polls[..n], decodes), polls[n].view;
      RunGenuine(start, polls[..n], chain, registry, decodes);
      if v.tip.Some? && v.tip.value > s.lastHeight {
        ScanFromGenuine(s, s.lastHeight + 1, v.tip.value, v, chain, registry, decodes);
      }
    }
  }

  // ---- Rows against attempts ----

  /** The setting: attempts on a stable chain, and the table rows they led to. */
  ghost predicate Setting(chain: nat -> BtcBlock, registry: Registry, decodes: Address -> bool, start: nat,
                          s: Btc.State, rows: seq<DepositRecord>) {
    && OneBlockPerTx(chain)
    && Genuine(s.attempts, chain, registry)
    && Btc.AttemptedBelow(start, s, s.lastHeight + 1, decodes)
    && DistinctTxs(rows)
    && RowsOf(rows, BTC, s.outbox)
  }

  ghost predicate FailedAt(s: Btc.State, h: nat) {
    exists k :: 0 <= k < |s.attempts| && s.attempts[k].height == h && s.attempts[k].block == None
  }

  /** Every Bitcoin row stems from an output of a block that was loaded, at the row's height. */
  lemma {:induction false} RowFrom(chain: nat -> BtcBlock, registry: Registry, decodes: Address -> bool, start: nat,
                                   s: Btc.State, rows: seq<DepositRecord>, r: DepositRecord)
    returns (k: nat, i: nat, j: nat)
    requires Setting(chain, registry, decodes, start, s, rows) && r in rows && r.chain == BTC
    ensures k < |s.attempts| && s.attempts[k] == Btc.Attempt(r.height, Some(chain(r.height)), registry)
    ensures i < |chain(r.height)| && j < |chain(r.height)[i].vouts|
    ensures VoutDeposit(chain(r.height)[i].txid, chain(r.height)[i].vouts[j], r.height, registry, decodes) == [r]
  {
    hide OneBlockPerTx, DistinctTxs, Btc.AllFound;
    k := Btc.FoundFrom(s.attempts, decodes, r);
    var a := s.attempts[k];
    i, j := BtcDepositFrom(a.block.value, a.height, registry, decodes, r);
  }

  /** The deposit of an output whose block did not fail is among the records. */
  lemma {:induction false} LoadedDeposit(chain: nat -> BtcBlock, registry: Registry, decodes: Address -> bool,
                                         start: nat, s: Btc.State, rows: seq<DepositRecord>, h: nat, i: nat, j: nat)
    returns (q: DepositRecord)
    requires Setting(chain, registry, decodes, start, s, rows) && start < h <= s.lastHeight && !FailedAt(s, h)
    requires i < |chain(h)| && j < |chain(h)[i].vouts|
    requires VoutDeposit(chain(h)[i].txid, chain(h)[i].vouts[j], h, registry, decodes) != []
    ensures q in s.outbox && q.txId == chain(h)[i].txid && q.chain == BTC
  {
    hide Btc.AllFound, DistinctTxs;
    var a := s.attempts[h - start - 1];
    assert a.height == h;
    q := VoutDeposit(chain(h)[i].txid, chain(h)[i].vouts[j], h, registry, decodes)[0];
    BtcDepositListed(chain(h), h, registry, decodes, i, j, q);
    Btc.FoundListed(s.attempts, decodes, h - start - 1, q);
  }

  /** A row of a transaction of a block has the block's height, and the block was loaded. */
  lemma {:induction false} RowOfBlock(chain: nat -> BtcBlock, registry: Registry, decodes: Address -> bool, start: nat,
                                      s: Btc.State, rows: seq<DepositRecord>, h: nat, i: nat, q: DepositRecord)
    requires Setting(chain, registry, decodes, start, s, rows) && i < |chain(h)|
    requires q in rows && q.chain == BTC && q.txId == chain(h)[i].txid
    ensures q.height == h && !FailedAt(s, h)
  {
    hide Btc.AllFound, DistinctTxs, RowsOf;
    var k, i', j' := RowFrom(chain, registry, decodes, start, s, rows, q);
    assert chain(q.height)[i'].txid == chain(h)[i].txid;
  }

  /** An output has a row in the range exactly when its block was loaded and its transaction has a row at all. */
  lemma {:induction false} RecordedUnlessFailed(chain: nat -> BtcBlock, registry: Registry, decodes: Address -> bool,
                                                start: nat, s: Btc.State, rows: seq<DepositRecord>, lo: nat, tip: nat,
                                                h: nat, i: nat, j: nat)
    requires Setting(chain, registry, decodes, start, s, rows) && start < lo <= h <= tip <= s.lastHeight
    requires i < |chain(h)| && j < |chain(h)[i].vouts|
    requires VoutDeposit(chain(h)[i].txid, chain(h)[i].vouts[j], h, registry, decodes) != []
    ensures chain(h)[i].txid in R.Index(rows, BTC, lo, tip) <==> !FailedAt(s, h) && HasTx(rows, chain(h)[i].txid)
  {
    hide R.Index, FailedAt, OneBlockPerTx, Genuine, Btc.AttemptedBelow;
    var txid, db := chain(h)[i].txid, R.Index(rows, BTC, lo, tip);
    Laws.IndexHoldsRows(rows, BTC, lo, tip);
    if !FailedAt(s, h) && HasTx(rows, txid) {
      var r := LoadedDeposit(chain, registry, decodes, start, s, rows, h, i, j);
      var q :| q in rows && q.chain == BTC && q.txId == txid;
      RowOfBlock(chain, registry, decodes, start, s, rows, h, i, q);
      Laws.IndexExactly(rows, BTC, lo, tip, q);
    }
    if txid in db {
      var q := db[txid];
      Laws.IndexExactly(rows, BTC, lo, tip, q);
      RowOfBlock(chain, registry, decodes, start, s, rows, h, i, q);
      var x :| 0 <= x < |rows| && rows[x] == q;
    }
  }

  ghost predicate SeesBlocks(v: Btc.PollView, chain: nat -> BtcBlock, lo: nat, tip: nat) {
    forall h: nat :: lo <= h <= tip ==> v.Load(h) == Some(chain(h))
  }

  /**
   * The addresses that the reconciler loads are, among those paid on the chain, the ones the watcher's registry holds.
   */
  ghost predicate SamePayees(chain: nat -> BtcBlock, known: set<Address>, registry: Registry) {
    forall h: nat, i, j :: 0 <= i < |chain(h)| && 0 <= j < |chain(h)[i].vouts| ==>
      (chain(h)[i].vouts[j].address in known <==> chain(h)[i].vouts[j].address in registry)
  }

  lemma {:induction false} SettingHolds(chain: nat -> BtcBlock, registry: Registry, decodes: Address -> bool,
                                        start: nat, polls: seq<Btc.Poll>, steps: seq<P.Step>)
    requires OneBlockPerTx(chain) && StablePolls(polls, chain, registry)
    requires Fed(steps, BTC, Btc.Run(start, polls, decodes).outbox)
    ensures Setting(chain, registry, decodes, start, Btc.Run(start, polls, decodes), P.Run(steps).rows)
  {
    hide P.Run, Btc.Run, OneBlockPerTx, DistinctTxs, P.OfChain;
    Btc.EveryHeightOnce(start, polls, decodes);
    RunGenuine(start, polls, chain, registry, decodes);
    RowsUnique(steps);
    FedRows(steps, BTC, Btc.Run(start, polls, decodes).outbox);
  }

  /** A sighted output is one of the chain, with a deposit for the watcher to find. */
  lemma {:induction false} SightedVout(chain: nat -> BtcBlock, registry: Registry, v: Btc.PollView, known: set<Address>,
                                       decodes: Address -> bool, lo: nat, tip: nat, h: nat, o: R.Output)
    returns (i: nat, j: nat)
    requires SeesBlocks(v, chain, lo, tip) && SamePayees(chain, known, registry)
    requires Laws.Sighted(R.BtcSighting(v, known, decodes), lo, tip + 1, h, o)
    ensures i < |chain(h)| && j < |chain(h)[i].vouts| && chain(h)[i].txid == o.txId && o.height == h
    ensures o.amount == chain(h)[i].vouts[j].amount
    ensures VoutDeposit(chain(h)[i].txid, chain(h)[i].vouts[j], h, registry, decodes) != []
  {
    i, j := Laws.BtcOutputFrom(chain(h), h, known, decodes, o);
  }

  lemma {:induction false} BtcMissing(chain: nat -> BtcBlock, registry: Registry, decodes: Address -> bool, start: nat,
                                      s: Btc.State, rows: seq<DepositRecord>, v: Btc.PollView, known: set<Address>,
                                      lo: nat, tip: nat, o: R.Output)
    requires Setting(chain, registry, decodes, start, s, rows) && start < lo && tip <= s.lastHeight
    requires SeesBlocks(v, chain, lo, tip) && SamePayees(chain, known, registry)
    ensures Laws.Occurrences(R.Window(R.BtcSighting(v, known, decodes), lo, tip + 1), o) > 0 ==>
              (Laws.Unrecorded(o, R.Index(rows, BTC, lo, tip)) <==> FailedAt(s, o.height) || !HasTx(rows, o.txId))
  {
    hide R.Index, R.Window, Laws.Occurrences, Setting, FailedAt, HasTx;
    var sight, hi := R.BtcSighting(v, known, decodes), tip + 1;
    Laws.OccursIfMember(R.Window(sight, lo, hi), o);
    Laws.WindowMembers(sight, lo, hi, o);
    if h: nat :| Laws.Sighted(sight, lo, hi, h, o) {
      var i, j := SightedVout(chain, registry, v, known, decodes, lo, tip, h, o);
      RecordedUnlessFailed(chain, registry, decodes, start, s, rows, lo, tip, h, i, j);
    }
  }

  lemma {:induction false} BtcRowIsNamed(chain: nat -> BtcBlock, registry: Registry, decodes: Address -> bool,
                                         start: nat, s: Btc.State, rows: seq<DepositRecord>, v: Btc.PollView,
                                         known: set<Address>, lo: nat, tip: nat, t: TxHash)
    requires Setting(chain, registry, decodes, start, s, rows) && SeesBlocks(v, chain, lo, tip)
    requires SamePayees(chain, known, registry)
    requires t in R.Index(rows, BTC, lo, tip)
    ensures Laws.Named(R.BtcSighting(v, known, decodes), lo, tip + 1, t)
  {
    hide R.Index;
    var r := R.Index(rows, BTC, lo, tip)[t];
    Laws.IndexHoldsRows(rows, BTC, lo, tip);
    Laws.IndexExactly(rows, BTC, lo, tip, r);
    var k, i, j := RowFrom(chain, registry, decodes, start, s, rows, r);
    var tx := chain(r.height)[i];
    var o := R.Output(tx.txid, tx.vouts[j].address, tx.vouts[j].amount, r.height);
    Laws.BtcOutputListed(chain(r.height), r.height, known, decodes, i, j, o);
    assert Laws.Sighted(R.BtcSighting(v, known, decodes), lo, tip + 1, r.height, o);
  }

  /**
   * An error-free pass, at any moment, over heights that the watcher has gone past reports as missing exactly the known
   * outputs of the blocks whose scan had failed and of the transactions that had no insert served, and no phantom.
   */
  lemma {:induction false} BtcPassExactly(chain: nat -> BtcBlock, registry: Registry, decodes: Address -> bool,
                                          start: nat, polls: seq<Btc.Poll>, steps: seq<P.Step>, v: Btc.PollView,
                                          known: set<Address>, tip: nat, depth: nat, cancelled: nat -> bool,
                                          o: R.Output)
    requires OneBlockPerTx(chain) && StablePolls(polls, chain, registry) && SamePayees(chain, known, registry)
    requires Fed(steps, BTC, Btc.Run(start, polls, decodes).outbox)
    requires start < R.WindowStart(tip, depth) && tip <= Btc.Run(start, polls, decodes).lastHeight
    requires SeesBlocks(v, chain, R.WindowStart(tip, depth), tip)
    requires Laws.Uncancelled(cancelled, R.WindowStart(tip, depth), tip)
    ensures var sight := R.BtcSighting(v, known, decodes);
            var r := R.Reconcile(sight, tip, depth, P.Run(steps).rows, BTC, cancelled);
            && r.Finished?
            && Laws.Occurrences(r.missing, o) ==
                 (if FailedAt(Btc.Run(start, polls, decodes), o.height) || !P.InsertServed(steps, o.txId)
                  then Laws.Occurrences(R.Window(sight, R.WindowStart(tip, depth), tip + 1), o) else 0)
            && r.phantom == {}
  {
    hide P.Run, Btc.Run, R.Index, R.Reconcile, R.Window, Laws.Named, Laws.Occurrences, Setting, FailedAt,
         P.InsertServed, Fed, SamePayees;
    var s, rows, lo := Btc.Run(start, polls, decodes), P.Run(steps).rows, R.WindowStart(tip, depth);
    var sight, db := R.BtcSighting(v, known, decodes), R.Index(rows, BTC, lo, tip);
    SettingHolds(chain, registry, decodes, start, polls, steps);
    P.RowExactly(steps, o.txId);
    BtcMissing(chain, registry, decodes, start, s, rows, v, known, lo, tip, o);
    Laws.ReconcileExactly(sight, tip, depth, rows, BTC, cancelled, o, "");
    forall t
      ensures t !in R.Reconcile(sight, tip, depth, rows, BTC, cancelled).phantom
    {
      Laws.ReconcileExactly(sight, tip, depth, rows, BTC, cancelled, o, t);
      if t in db {
        BtcRowIsNamed(chain, registry, decodes, start, s, rows, v, known, lo, tip, t);
      }
    }
  }

  /**
   * Once whatever was dropped or given up has a row all the same, what is missing are the blocks whose scan had
   * failed.
   */
  lemma {:induction false} BtcPassReportsFailedScans(chain: nat -> BtcBlock, registry: Registry,
                                                     decodes: Address -> bool, start: nat, polls: seq<Btc.Poll>,
                                                     steps: seq<P.Step>, v: Btc.PollView, known: set<Address>, tip: nat,
                                                     depth: nat, cancelled: nat -> bool, o: R.Output)
    requires OneBlockPerTx(chain) && StablePolls(polls, chain, registry) && SamePayees(chain, known, registry)
    requires Fed(steps, BTC, Btc.Run(start, polls, decodes).outbox) && P.Settled(P.Run(steps), BTC)
    requires start < R.WindowStart(tip, depth) && tip <= Btc.Run(start, polls, decodes).lastHeight
    requires SeesBlocks(v, chain, R.WindowStart(tip, depth), tip)
    requires Laws.Uncancelled(cancelled, R.WindowStart(tip, depth), tip)
    ensures var sight := R.BtcSighting(v, known, decodes);
            var r := R.Reconcile(sight, tip, depth, P.Run(steps).rows, BTC, cancelled);
            var outs := R.Window(sight, R.WindowStart(tip, depth), tip + 1);
            && r.Finished?
            && Laws.Occurrences(r.missing, o) ==
                 (if FailedAt(Btc.Run(start, polls, decodes), o.height) then Laws.Occurrences(outs, o) else 0)
            && r.phantom == {}
  {
    hide P.Run, Btc.Run, R.Reconcile, R.Window, Laws.Occurrences, Setting, FailedAt, P.InsertServed, P.Settled,
         SamePayees, P.OfChain, P.Offered, P.Legal;
    var s, lo, hi := Btc.Run(start, polls, decodes), R.WindowStart(tip, depth), tip + 1;
    var sight := R.BtcSighting(v, known, decodes);
    BtcPassExactly(chain, registry, decodes, start, polls, steps, v, known, tip, depth, cancelled, o);
    SettingHolds(chain, registry, decodes, start, polls, steps);
    Laws.OccursIfMember(R.Window(sight, lo, hi), o);
    Laws.WindowMembers(sight, lo, hi, o);
    if h: nat :| Laws.Sighted(sight, lo, hi, h, o) {
      var i, j := SightedVout(chain, registry, v, known, decodes, lo, tip, h, o);
      if !FailedAt(s, h) {
        var q := LoadedDeposit(chain, registry, decodes, start, s, P.Run(steps).rows, h, i, j);
        OfChainRows(P.Offered(steps), BTC, q);
        P.EverythingHasARow(steps, BTC, q);
        P.RowExactly(steps, o.txId);
      }
    }
  }

  ghost predicate Pays(chain: nat -> BtcBlock, registry: Registry, decodes: Address -> bool, h: nat, i: int, j: int) {
    && 0 <= i < |chain(h)| && 0 <= j < |chain(h)[i].vouts|
    && VoutDeposit(chain(h)[i].txid, chain(h)[i].vouts[j], h, registry, decodes) != []
  }

  /** A transaction id names one transaction, which pays registered addresses at most once. */
  ghost predicate OnePaymentPerTx(chain: nat -> BtcBlock, registry: Registry, decodes: Address -> bool) {
    forall h: nat, i, j, g: nat, k, l ::
      Pays(chain, registry, decodes, h, i, j) && Pays(chain, registry, decodes, g, k, l) &&
        chain(h)[i].txid == chain(g)[k].txid ==>
        h == g && i == k && j == l
  }

  lemma {:induction false} RowIndexed(rows: seq<DepositRecord>, lo: nat, tip: nat, t: TxHash)
    requires DistinctTxs(rows) && t in R.Index(rows, BTC, lo, tip)
    ensures var q := R.Index(rows, BTC, lo, tip)[t]; q in rows && q.chain == BTC && q.txId == t
  {
    hide R.Index;
    Laws.IndexHoldsRows(rows, BTC, lo, tip);
    Laws.IndexExactly(rows, BTC, lo, tip, R.Index(rows, BTC, lo, tip)[t]);
  }

  lemma {:induction false} BtcSameAmount(chain: nat -> BtcBlock, registry: Registry, decodes: Address -> bool,
                                         start: nat, s: Btc.State, rows: seq<DepositRecord>, v: Btc.PollView,
                                         known: set<Address>, lo: nat, tip: nat, h: nat, o: R.Output)
    requires Setting(chain, registry, decodes, start, s, rows) && OnePaymentPerTx(chain, registry, decodes)
    requires SeesBlocks(v, chain, lo, tip) && SamePayees(chain, known, registry)
    requires Laws.Sighted(R.BtcSighting(v, known, decodes), lo, tip + 1, h, o) && o.txId in R.Index(rows, BTC, lo, tip)
    ensures R.Index(rows, BTC, lo, tip)[o.txId].amount == o.amount
  {
    hide R.Index, SamePayees, SeesBlocks;
    var i, j := SightedVout(chain, registry, v, known, decodes, lo, tip, h, o);
    var q := R.Index(rows, BTC, lo, tip)[o.txId];
    RowIndexed(rows, lo, tip, o.txId);
    var k, i', j' := RowFrom(chain, registry, decodes, start, s, rows, q);
    assert Pays(chain, registry, decodes, h, i, j) && Pays(chain, registry, decodes, q.height, i', j');
  }

  /**
   * The watcher and the reconciler read the same amounts: when a transaction pays registered addresses at most once, a
   * pass without failures reports no mismatch, at any moment and whatever failed before.
   */
  lemma {:induction false} BtcPassNoMismatch(chain: nat -> BtcBlock, registry: Registry, decodes: Address -> bool,
                                             start: nat, polls: seq<Btc.Poll>, steps: seq<P.Step>, v: Btc.PollView,
                                             known: set<Address>, tip: nat, depth: nat, cancelled: nat -> bool)
    requires OneBlockPerTx(chain) && OnePaymentPerTx(chain, registry, decodes)
    requires StablePolls(polls, chain, registry) && SamePayees(chain, known, registry)
    requires Fed(steps, BTC, Btc.Run(start, polls, decodes).outbox)
    requires SeesBlocks(v, chain, R.WindowStart(tip, depth), tip)
    requires Laws.Uncancelled(cancelled, R.WindowStart(tip, depth), tip)
    ensures var r := R.Reconcile(R.BtcSighting(v, known, decodes), tip, depth, P.Run(steps).rows, BTC, cancelled);
            r.Finished? && r.mismatched == []
  {
    hide P.Run, Btc.Run, R.Index, R.Reconcile, R.Window, Laws.Occurrences, Setting, Fed, SamePayees, OnePaymentPerTx;
    var s, rows, lo := Btc.Run(start, polls, decodes), P.Run(steps).rows, R.WindowStart(tip, depth);
    var sight, hi := R.BtcSighting(v, known, decodes), tip + 1;
    SettingHolds(chain, registry, decodes, start, polls, steps);
    Laws.ReconcileExactly(sight, tip, depth, rows, BTC, cancelled, R.Output("", "", 0, 0), "");
    forall o
      ensures Laws.Occurrences(R.Reconcile(sight, tip, depth, rows, BTC, cancelled).mismatched, o) == 0
    {
      Laws.ReconcileExactly(sight, tip, depth, rows, BTC, cancelled, o, "");
      Laws.OccursIfMember(R.Window(sight, lo, hi), o);
      Laws.WindowMembers(sight, lo, hi, o);
      if h: nat :| Laws.Sighted(sight, lo, hi, h, o) {
        if o.txId in R.Index(rows, BTC, lo, tip) {
          BtcSameAmount(chain, registry, decodes, start, s, rows, v, known, lo, tip, h, o);
        }
      }
    }
    Laws.EmptyByCount(R.Reconcile(sight, tip, depth, rows, BTC, cancelled).mismatched);
  }
}

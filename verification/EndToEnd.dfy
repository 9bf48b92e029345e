/** Watcher, pipeline, table and reconciler together. */
module EndToEnd {
  import opened Basics
  import opened Deposits
  import Eth = EthWatching
  import Stable = EthStableChain
  import P = DepositPipeline
  import R = Reconciling
  import Laws = ReconcilerLaws

  /** The deposits table holds each tx_id once. */
  lemma {:induction false} RowsUnique(steps: seq<P.Step>)
    ensures DistinctTxs(P.Run(steps).rows)
  {
    if steps != [] {
      var p, e := steps[..|steps| - 1], steps[|steps| - 1];
      RowsUnique(p);
      var s := P.Run(p);
      if e.Insert? && P.Enabled(s, e) && !HasTx(s.rows, s.At(e.chain).hand.value.record.txId) {
        var r := s.At(e.chain).hand.value.record;
        assert forall i :: 0 <= i < |s.rows| ==> s.rows[i].txId != r.txId;
        assert P.Run(steps).rows == s.rows || P.Run(steps).rows == s.rows + [r];
      } else {
        assert P.Run(steps).rows == s.rows;
      }
    }
  }

  lemma {:induction false} OfChainRows(rows: seq<DepositRecord>, c: Chain, r: DepositRecord)
    ensures r in P.OfChain(rows, c) <==> r in rows && r.chain == c
  {
    if rows != [] {
      var n := |rows| - 1;
      OfChainRows(rows[..n], c, r);
      assert rows == rows[..n] + [rows[n]];
    }
  }

  // ---- Ethereum credit ----

  /** What the table credits a user with on a chain. */
  function Credit(rows: seq<DepositRecord>, c: Chain, user: UserId): nat {
    if rows == [] then 0
    else
      var r := rows[|rows| - 1];
      Credit(rows[..|rows| - 1], c, user) + if r.chain == c && r.userId == user then r.amount else 0
  }

  lemma {:induction false} CreditOfChain(rows: seq<DepositRecord>, c: Chain, user: UserId)
    ensures Credit(rows, c, user) == Credit(P.OfChain(rows, c), c, user)
  {
    if rows != [] {
      var n := |rows| - 1;
      CreditOfChain(rows[..n], c, user);
      var all := P.OfChain(rows, c);
      if rows[n].chain == c {
        assert all[..|all| - 1] == P.OfChain(rows[..n], c) && all[|all| - 1] == rows[n];
      } else {
        assert all == P.OfChain(rows[..n], c);
      }
    }
  }

  /** A pipeline run fed with the watcher's records, and with anything on the other chain. */
  ghost predicate Fed(steps: seq<P.Step>, c: Chain, outbox: seq<DepositRecord>) {
    P.Legal(steps) && P.IdsByChain(P.Offered(steps)) && P.OfChain(P.Offered(steps), c) == outbox
  }

  /** The chain's rows are records of the watcher, and a record whose transaction has a row has one of the chain. */
  ghost predicate RowsOf(rows: seq<DepositRecord>, c: Chain, outbox: seq<DepositRecord>) {
    && (forall r :: r in rows && r.chain == c ==> r in outbox)
    && (forall r :: r in outbox && HasTx(rows, r.txId) ==> exists q :: q in rows && q.chain == c && q.txId == r.txId)
  }

  lemma {:induction false} FedRows(steps: seq<P.Step>, c: Chain, outbox: seq<DepositRecord>)
    requires Fed(steps, c, outbox)
    ensures RowsOf(P.Run(steps).rows, c, outbox)
  {
    hide P.Run, P.Legal, P.Offered, P.OfChain;
    var rows, all := P.Run(steps).rows, P.Offered(steps);
    forall r | r in rows && r.chain == c
      ensures r in outbox
    {
      P.RowsWereOffered(steps, r);
      OfChainRows(all, c, r);
    }
    forall r | r in outbox && HasTx(rows, r.txId)
      ensures exists q :: q in rows && q.chain == c && q.txId == r.txId
    {
      var i :| 0 <= i < |rows| && rows[i].txId == r.txId;
      P.RowsWereOffered(steps, rows[i]);
      OfChainRows(all, c, r);
      var j :| 0 <= j < |all| && all[j] == r;
      var k :| 0 <= k < |all| && all[k] == rows[i];
    }
  }

  /** The records whose transaction has a row. */
  function WithRow(s: seq<DepositRecord>, rows: seq<DepositRecord>): seq<DepositRecord> {
    if s == [] then []
    else WithRow(s[..|s| - 1], rows) + if HasTx(rows, s[|s| - 1].txId) then [s[|s| - 1]] else []
  }

  lemma {:induction false} WithRowMembers(s: seq<DepositRecord>, rows: seq<DepositRecord>)
    requires DistinctTxs(s)
    ensures forall r :: r in WithRow(s, rows) <==> r in s && HasTx(rows, r.txId)
    ensures DistinctTxs(WithRow(s, rows))
  {
    hide HasTx;
    if s != [] {
      var n := |s| - 1;
      WithRowMembers(s[..n], rows);
      assert s == s[..n] + [s[n]];
      var p := WithRow(s[..n], rows);
      forall i | 0 <= i < |p|
        ensures p[i].txId != s[n].txId
      {
        assert p[i] in s[..n];
      }
    }
  }

  lemma {:induction false} AllWithRow(s: seq<DepositRecord>, rows: seq<DepositRecord>)
    requires forall i :: 0 <= i < |s| ==> HasTx(rows, s[i].txId)
    ensures WithRow(s, rows) == s
  {
    hide HasTx;
    if s != [] {
      var n := |s| - 1;
      AllWithRow(s[..n], rows);
      assert s == s[..n] + [s[n]];
    }
  }

  lemma {:induction false} CreditSnoc(s: seq<DepositRecord>, r: DepositRecord, c: Chain, user: UserId)
    ensures Credit(s + [r], c, user) == Credit(s, c, user) + Credit([r], c, user)
    ensures Credit([], c, user) == 0
  {
    assert (s + [r])[..|s|] == s && [r][..0] == [];
  }

  lemma {:induction false} CreditRemove(s: seq<DepositRecord>, i: nat, c: Chain, user: UserId)
    requires i < |s|
    ensures Credit(s, c, user) == Credit(s[..i] + s[i + 1..], c, user) + Credit([s[i]], c, user)
  {
    hide Credit;
    var n := |s| - 1;
    var p := s[..n];
    CreditSnoc(p, s[n], c, user);
    assert s == p + [s[n]];
    if i < n {
      CreditRemove(p, i, c, user);
      CreditSnoc(p[..i] + p[i + 1..], s[n], c, user);
      assert s[..i] + s[i + 1..] == p[..i] + p[i + 1..] + [s[n]];
    } else {
      assert s[..i] + s[i + 1..] == p;
    }
  }

  lemma {:induction false} SomeMember(s: seq<DepositRecord>)
    ensures s == [] || exists r :: r in s
  {
    assert s == [] || s[0] in s;
  }

  lemma {:induction false} RemovedMember(s: seq<DepositRecord>, i: nat, r: DepositRecord)
    requires DistinctTxs(s) && i < |s|
    ensures r in s[..i] + s[i + 1..] <==> r in s && r != s[i]
  {
    var t := s[..i] + s[i + 1..];
    if r in s && r != s[i] {
      var k :| 0 <= k < |s| && s[k] == r;
      assert t[if k < i then k else k - 1] == r;
    }
    if r in t {
      var k :| 0 <= k < |t| && t[k] == r;
      assert s[if k < i then k else k + 1] == r;
    }
  }

  /** Tables with the same rows, each once, credit the same. */
  lemma {:induction false} SameRowsSameCredit(s: seq<DepositRecord>, t: seq<DepositRecord>, c: Chain, user: UserId)
    requires DistinctTxs(s) && DistinctTxs(t) && forall r :: r in s <==> r in t
    ensures Credit(s, c, user) == Credit(t, c, user)
  {
    hide Credit;
    if s == [] {
      SomeMember(t);
    } else {
      var n := |s| - 1;
      assert s[n] in t;
      var i :| 0 <= i < |t| && t[i] == s[n];
      var u := t[..i] + t[i + 1..];
      CreditRemove(t, i, c, user);
      CreditRemove(s, n, c, user);
      assert s[..n] + s[n + 1..] == s[..n];
      assert DistinctTxs(u) by {
        assert forall k :: 0 <= k < |u| ==> u[k] == t[if k < i then k else k + 1];
      }
      forall r
        ensures r in s[..n] <==> r in u
      {
        RemovedMember(t, i, r);
        RemovedMember(s, n, r);
      }
      SameRowsSameCredit(s[..n], u, c, user);
    }
  }

  lemma {:induction false} SameTxSameRecord(s: seq<DepositRecord>, r: DepositRecord, q: DepositRecord)
    requires DistinctTxs(s) && r in s && q in s && r.txId == q.txId
    ensures r == q
  {
    var i :| 0 <= i < |s| && s[i] == r;
    var j :| 0 <= j < |s| && s[j] == q;
  }

  lemma {:induction false} RowHasTx(rows: seq<DepositRecord>, r: DepositRecord)
    requires r in rows
    ensures HasTx(rows, r.txId)
  {
    var i :| 0 <= i < |rows| && rows[i] == r;
  }

  /** The Ethereum rows are the clean records with a row. */
  lemma {:induction false} CleanRows(clean: seq<DepositRecord>, outbox: seq<DepositRecord>, rows: seq<DepositRecord>)
    requires RowsOf(rows, ETH, outbox) && FirstByTx(outbox) == clean
    requires forall r :: r in outbox ==> r in clean
    requires DistinctTxs(clean)
    ensures forall r :: r in rows && r.chain == ETH <==> r in clean && HasTx(rows, r.txId)
  {
    FirstByTxMembers(outbox);
    hide FirstByTx, HasTx, DistinctTxs;
    forall r | r in rows && r.chain == ETH
      ensures r in clean && HasTx(rows, r.txId)
    {
      RowHasTx(rows, r);
    }
    forall r | r in clean && HasTx(rows, r.txId)
      ensures r in rows && r.chain == ETH
    {
      var q :| q in rows && q.chain == ETH && q.txId == r.txId;
      SameTxSameRecord(clean, r, q);
    }
  }

  lemma {:induction false} OfChainDistinct(rows: seq<DepositRecord>, c: Chain)
    requires DistinctTxs(rows)
    ensures DistinctTxs(P.OfChain(rows, c))
  {
    if rows != [] {
      var n := |rows| - 1;
      OfChainDistinct(rows[..n], c);
      var p := P.OfChain(rows[..n], c);
      forall i | 0 <= i < |p|
        ensures p[i].txId != rows[n].txId
      {
        OfChainRows(rows[..n], c, p[i]);
        var k :| 0 <= k < n && rows[k] == p[i];
      }
    }
  }

  /**
   * Exactly-once credit. On a stable chain, for any failed calls, false reorgs and rescans of the watcher, any
   * failures of the database and any interleaving of the pipeline: at every moment the Ethereum rows are, each once,
   * the records of one clean scan of the accepted heights whose transaction had an insert served, and every user is
   * credited with exactly their sum.
   */
  lemma {:induction false} EthCreditedExactly(chain: nat -> EthBlock, registry: Registry, start: nat,
                                              polls: seq<Eth.Poll>, steps: seq<P.Step>, user: UserId, r: DepositRecord)
    requires Eth.IsChain(chain) && Stable.UniqueTxs(chain) && Stable.StablePolls(polls, chain, registry)
    requires Fed(steps, ETH, Eth.Run(Eth.Start(chain(start)), polls).outbox)
    ensures var top := Stable.Highest(start, Eth.Run(Eth.Start(chain(start)), polls).history);
            var clean := Stable.CleanScan(chain, registry, start, top);
            && DistinctTxs(P.Run(steps).rows)
            && (r in P.Run(steps).rows && r.chain == ETH <==> r in clean && P.InsertServed(steps, r.txId))
            && Credit(P.Run(steps).rows, ETH, user) == Credit(WithRow(clean, P.Run(steps).rows), ETH, user)
  {
    hide P.Run, P.Legal, P.Offered, P.InsertServed, Eth.Run, Stable.CleanScan, Stable.Highest, P.OfChain,
         Stable.UniqueTxs;
    var s, rows := Eth.Run(Eth.Start(chain(start)), polls), P.Run(steps).rows;
    var clean := Stable.CleanScan(chain, registry, start, Stable.Highest(start, s.history));
    Stable.RecordsOfStableChain(chain, registry, start, polls);
    RowsUnique(steps);
    FedRows(steps, ETH, s.outbox);
    Stable.CleanScanDistinct(chain, registry, start, Stable.Highest(start, s.history));
    CleanRows(clean, s.outbox, rows);
    P.RowExactly(steps, r.txId);
    CreditOfChain(rows, ETH, user);
    WithRowMembers(clean, rows);
    OfChainDistinct(rows, ETH);
    forall q
      ensures q in P.OfChain(rows, ETH) <==> q in WithRow(clean, rows)
    {
      OfChainRows(rows, ETH, q);
    }
    SameRowsSameCredit(P.OfChain(rows, ETH), WithRow(clean, rows), ETH, user);
  }

  /**
   * Once nothing is under way and whatever was dropped or given up has a row all the same, the Ethereum rows are
   * exactly the records of the clean scan, and every user's total is that of the scan: inserts may have failed and
   * been repeated.
   */
  lemma {:induction false} EthCreditedExactlyOnce(chain: nat -> EthBlock, registry: Registry, start: nat,
                                                  polls: seq<Eth.Poll>, steps: seq<P.Step>, user: UserId,
                                                  r: DepositRecord)
    requires Eth.IsChain(chain) && Stable.UniqueTxs(chain) && Stable.StablePolls(polls, chain, registry)
    requires Fed(steps, ETH, Eth.Run(Eth.Start(chain(start)), polls).outbox) && P.Settled(P.Run(steps), ETH)
    ensures var top := Stable.Highest(start, Eth.Run(Eth.Start(chain(start)), polls).history);
            var clean := Stable.CleanScan(chain, registry, start, top);
            && DistinctTxs(P.Run(steps).rows)
            && (r in P.Run(steps).rows && r.chain == ETH <==> r in clean)
            && Credit(P.Run(steps).rows, ETH, user) == Credit(clean, ETH, user)
            && Eth.Run(Eth.Start(chain(start)), polls).lastHeight <= top
  {
    hide P.Run, P.Legal, P.Offered, P.InsertServed, P.Settled, Eth.Run, Stable.CleanScan, Stable.Highest, P.OfChain,
         Stable.UniqueTxs;
    var s, rows := Eth.Run(Eth.Start(chain(start)), polls), P.Run(steps).rows;
    var clean := Stable.CleanScan(chain, registry, start, Stable.Highest(start, s.history));
    EthCreditedExactly(chain, registry, start, polls, steps, user, r);
    Stable.RecordsOfStableChain(chain, registry, start, polls);
    FirstByTxMembers(s.outbox);
    forall i | 0 <= i < |clean|
      ensures HasTx(rows, clean[i].txId)
    {
      OfChainRows(P.Offered(steps), ETH, clean[i]);
      P.EverythingHasARow(steps, ETH, clean[i]);
    }
    AllWithRow(clean, rows);
    P.RowExactly(steps, r.txId);
  }

  // ---- The reconciler agrees with the Ethereum watcher ----

  /** An Ethereum row of the clean scan is the deposit of a transaction at its height. */
  lemma {:induction false} CleanRow(chain: nat -> EthBlock, registry: Registry, start: nat, top: nat, r: DepositRecord)
    returns (i: nat)
    requires r in Stable.CleanScan(chain, registry, start, top)
    ensures start < r.height <= top && i < |chain(r.height).txs|
    ensures EthDeposit(chain(r.height).txs[i], r.height, registry) == [r]
  {
    Stable.CleanScanMembers(chain, registry, start, top, r);
    var h: nat :| start < h <= top && r in Stable.DepositsAt(chain, registry, h);
    i := DepositFrom(chain(h).txs, h, registry, r);
  }

  /** The reconciler's view of a window of the stable chain that it loads without a failure. */
  ghost predicate SeesChain(fetch: nat -> Option<EthBlock>, chain: nat -> EthBlock, lo: nat, tip: nat) {
    forall h: nat :: lo <= h <= tip ==> fetch(h) == Some(chain(h))
  }

  /**
   * The addresses that the reconciler loads are, among the recipients on the chain, those the watcher's registry
   * holds.
   */
  ghost predicate SameRecipients(chain: nat -> EthBlock, known: set<Address>, registry: Registry) {
    forall h: nat, i :: 0 <= i < |chain(h).txs| && chain(h).txs[i].to.Some? ==>
      (chain(h).txs[i].to.value in known <==> chain(h).txs[i].to.value in registry)
  }

  /** The rows against the clean scan, for all records at once. */
  ghost predicate TableOf(rows: seq<DepositRecord>, clean: seq<DepositRecord>) {
    DistinctTxs(rows) && forall r :: r in rows && r.chain == ETH <==> r in clean && HasTx(rows, r.txId)
  }

  lemma {:induction false} EthTable(chain: nat -> EthBlock, registry: Registry, start: nat, polls: seq<Eth.Poll>,
                                    steps: seq<P.Step>)
    requires Eth.IsChain(chain) && Stable.UniqueTxs(chain) && Stable.StablePolls(polls, chain, registry)
    requires Fed(steps, ETH, Eth.Run(Eth.Start(chain(start)), polls).outbox)
    ensures var top := Stable.Highest(start, Eth.Run(Eth.Start(chain(start)), polls).history);
            TableOf(P.Run(steps).rows, Stable.CleanScan(chain, registry, start, top))
  {
    hide P.Run, P.Legal, P.Offered, Eth.Run, Stable.CleanScan, Stable.Highest, P.OfChain, Stable.UniqueTxs;
    var s := Eth.Run(Eth.Start(chain(start)), polls);
    Stable.RecordsOfStableChain(chain, registry, start, polls);
    Stable.CleanScanDistinct(chain, registry, start, Stable.Highest(start, s.history));
    RowsUnique(steps);
    FedRows(steps, ETH, s.outbox);
    CleanRows(Stable.CleanScan(chain, registry, start, Stable.Highest(start, s.history)), s.outbox, P.Run(steps).rows);
  }

  /** A sighted output is a transaction whose deposit is in the clean scan. */
  lemma {:induction false} SightedDeposit(chain: nat -> EthBlock, registry: Registry, start: nat, top: nat,
                                          fetch: nat -> Option<EthBlock>, known: set<Address>, lo: nat, tip: nat,
                                          h: nat, o: R.Output)
    returns (i: nat)
    requires SeesChain(fetch, chain, lo, tip) && SameRecipients(chain, known, registry) && start < lo && tip <= top
    requires Laws.Sighted(R.EthSighting(fetch, known), lo, tip + 1, h, o)
    ensures i < |chain(h).txs| && chain(h).txs[i].hash == o.txId && EthDeposit(chain(h).txs[i], h, registry) != []
    ensures EthDeposit(chain(h).txs[i], h, registry)[0] in Stable.CleanScan(chain, registry, start, top)
  {
    hide Stable.CleanScan;
    i := Laws.EthOutputFrom(chain(h).txs, h, known, o);
    var r := EthDeposit(chain(h).txs[i], h, registry)[0];
    DepositListed(chain(h).txs, h, registry, i, r);
    assert r in Stable.DepositsAt(chain, registry, h);
    Stable.CleanScanMembers(chain, registry, start, top, r);
  }

  /** An output of the window has a row in the range if and only if its transaction has one at all. */
  lemma {:induction false} EthUnrecorded(chain: nat -> EthBlock, registry: Registry, start: nat, top: nat,
                                         rows: seq<DepositRecord>, fetch: nat -> Option<EthBlock>, known: set<Address>,
                                         lo: nat, tip: nat, o: R.Output)
    requires TableOf(rows, Stable.CleanScan(chain, registry, start, top)) && SameRecipients(chain, known, registry)
    requires SeesChain(fetch, chain, lo, tip) && start < lo && tip <= top
    ensures Laws.Occurrences(R.Window(R.EthSighting(fetch, known), lo, tip + 1), o) > 0 ==>
              (Laws.Unrecorded(o, R.Index(rows, ETH, lo, tip)) <==> !HasTx(rows, o.txId))
  {
    hide R.Index, Stable.CleanScan, R.Window, Laws.Occurrences;
    var sight, hi := R.EthSighting(fetch, known), tip + 1;
    Laws.OccursIfMember(R.Window(sight, lo, hi), o);
    Laws.WindowMembers(sight, lo, hi, o);
    Laws.IndexHoldsRows(rows, ETH, lo, tip);
    if h: nat :| Laws.Sighted(sight, lo, hi, h, o) {
      var i := SightedDeposit(chain, registry, start, top, fetch, known, lo, tip, h, o);
      var r := EthDeposit(chain(h).txs[i], h, registry)[0];
      Laws.IndexExactly(rows, ETH, lo, tip, r);
      if o.txId in R.Index(rows, ETH, lo, tip) {
        var q := R.Index(rows, ETH, lo, tip)[o.txId];
        var k :| 0 <= k < |rows| && rows[k] == q;
      }
    }
  }

  lemma {:induction false} EthRowIsNamed(chain: nat -> EthBlock, registry: Registry, start: nat, top: nat,
                                         rows: seq<DepositRecord>, fetch: nat -> Option<EthBlock>, known: set<Address>,
                                         lo: nat, tip: nat, t: TxHash)
    requires TableOf(rows, Stable.CleanScan(chain, registry, start, top)) && SameRecipients(chain, known, registry)
    requires SeesChain(fetch, chain, lo, tip) && t in R.Index(rows, ETH, lo, tip)
    ensures Laws.Named(R.EthSighting(fetch, known), lo, tip + 1, t)
  {
    hide R.Index, Stable.CleanScan;
    var r := R.Index(rows, ETH, lo, tip)[t];
    Laws.IndexHoldsRows(rows, ETH, lo, tip);
    Laws.IndexExactly(rows, ETH, lo, tip, r);
    var i := CleanRow(chain, registry, start, top, r);
    var tx := chain(r.height).txs[i];
    var o := R.Output(tx.hash, tx.to.value, tx.value, r.height);
    Laws.EthOutputListed(chain(r.height).txs, r.height, known, i, o);
    assert Laws.Sighted(R.EthSighting(fetch, known), lo, tip + 1, r.height, o);
  }

  /**
   * If the watcher accepted every block of the window, a pass without failures, at any moment, reports as missing
   * exactly the known outputs of transactions that had no insert served, and no phantom.
   */
  lemma {:induction false} EthPassExactly(chain: nat -> EthBlock, registry: Registry, start: nat, polls: seq<Eth.Poll>,
                                          steps: seq<P.Step>, fetch: nat -> Option<EthBlock>, known: set<Address>,
                                          tip: nat, depth: nat, cancelled: nat -> bool, o: R.Output)
    requires Eth.IsChain(chain) && Stable.UniqueTxs(chain) && Stable.StablePolls(polls, chain, registry)
    requires Fed(steps, ETH, Eth.Run(Eth.Start(chain(start)), polls).outbox)
    requires forall h :: R.WindowStart(tip, depth) <= h <= tip ==>
               Eth.HeightAccepted(Eth.Run(Eth.Start(chain(start)), polls).history, h)
    requires SeesChain(fetch, chain, R.WindowStart(tip, depth), tip) && SameRecipients(chain, known, registry)
    requires Laws.Uncancelled(cancelled, R.WindowStart(tip, depth), tip)
    ensures var sight := R.EthSighting(fetch, known);
            var r := R.Reconcile(sight, tip, depth, P.Run(steps).rows, ETH, cancelled);
            var outs := R.Window(sight, R.WindowStart(tip, depth), tip + 1);
            && r.Finished?
            && Laws.Occurrences(r.missing, o) ==
                 (if P.InsertServed(steps, o.txId) then 0 else Laws.Occurrences(outs, o))
            && r.phantom == {}
  {
    hide Eth.HeightAccepted, Stable.Highest, Stable.CleanScan, P.Run, Eth.Run, R.Index, R.Reconcile, R.Window,
         Laws.Named, Fed, Laws.Occurrences, P.InsertServed, SameRecipients, Stable.UniqueTxs;
    var s, rows, lo := Eth.Run(Eth.Start(chain(start)), polls), P.Run(steps).rows, R.WindowStart(tip, depth);
    var top := Stable.Highest(start, s.history);
    Stable.RecordsOfStableChain(chain, registry, start, polls);
    EthTable(chain, registry, start, polls, steps);
    P.RowExactly(steps, o.txId);
    assert Eth.HeightAccepted(s.history, lo) && Eth.HeightAccepted(s.history, tip);
    var sight, db := R.EthSighting(fetch, known), R.Index(rows, ETH, lo, tip);
    Laws.ReconcileExactly(sight, tip, depth, rows, ETH, cancelled, o, "");
    forall t
      ensures t !in R.Reconcile(sight, tip, depth, rows, ETH, cancelled).phantom
    {
      Laws.ReconcileExactly(sight, tip, depth, rows, ETH, cancelled, o, t);
      if t in db {
        EthRowIsNamed(chain, registry, start, top, rows, fetch, known, lo, tip, t);
      }
    }
    EthUnrecorded(chain, registry, start, top, rows, fetch, known, lo, tip, o);
  }

  /** So nothing is missing either once whatever was dropped or given up has a row all the same. */
  lemma {:induction false} EthPassIsClean(chain: nat -> EthBlock, registry: Registry, start: nat, polls: seq<Eth.Poll>,
                                          steps: seq<P.Step>, fetch: nat -> Option<EthBlock>, known: set<Address>,
                                          tip: nat, depth: nat, cancelled: nat -> bool)
    requires Eth.IsChain(chain) && Stable.UniqueTxs(chain) && Stable.StablePolls(polls, chain, registry)
    requires Fed(steps, ETH, Eth.Run(Eth.Start(chain(start)), polls).outbox) && P.Settled(P.Run(steps), ETH)
    requires forall h :: R.WindowStart(tip, depth) <= h <= tip ==>
               Eth.HeightAccepted(Eth.Run(Eth.Start(chain(start)), polls).history, h)
    requires SeesChain(fetch, chain, R.WindowStart(tip, depth), tip) && SameRecipients(chain, known, registry)
    requires Laws.Uncancelled(cancelled, R.WindowStart(tip, depth), tip)
    ensures var r := R.Reconcile(R.EthSighting(fetch, known), tip, depth, P.Run(steps).rows, ETH, cancelled);
            r.Finished? && r.missing == [] && r.phantom == {}
  {
    hide Eth.HeightAccepted, Stable.Highest, Stable.CleanScan, P.Run, Eth.Run, R.Index, R.Reconcile, R.Window,
         Laws.Named, P.InsertServed, P.Settled, P.OfChain, P.Offered, P.Legal, SameRecipients, Stable.UniqueTxs,
         Laws.Occurrences;
    var s, rows, lo := Eth.Run(Eth.Start(chain(start)), polls), P.Run(steps).rows, R.WindowStart(tip, depth);
    var sight, hi := R.EthSighting(fetch, known), tip + 1;
    var top := Stable.Highest(start, s.history);
    Stable.RecordsOfStableChain(chain, registry, start, polls);
    assert Eth.HeightAccepted(s.history, lo) && Eth.HeightAccepted(s.history, tip);
    EthPassExactly(chain, registry, start, polls, steps, fetch, known, tip, depth, cancelled, R.Output("", "", 0, 0));
    forall o
      ensures Laws.Occurrences(R.Reconcile(sight, tip, depth, rows, ETH, cancelled).missing, o) == 0
    {
      EthPassExactly(chain, registry, start, polls, steps, fetch, known, tip, depth, cancelled, o);
      Laws.OccursIfMember(R.Window(sight, lo, hi), o);
      Laws.WindowMembers(sight, lo, hi, o);
      if h: nat :| Laws.Sighted(sight, lo, hi, h, o) {
        var i := SightedDeposit(chain, registry, start, top, fetch, known, lo, tip, h, o);
        var q := EthDeposit(chain(h).txs[i], h, registry)[0];
        FirstByTxMembers(s.outbox);
        OfChainRows(P.Offered(steps), ETH, q);
        P.EverythingHasARow(steps, ETH, q);
        P.RowExactly(steps, o.txId);
      }
    }
    Laws.EmptyByCount(R.Reconcile(sight, tip, depth, rows, ETH, cancelled).missing);
  }
}

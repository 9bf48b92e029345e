/** What a reconciliation pass reports, stated without its loops. */
module ReconcilerLaws {
  import opened Basics
  import opened Deposits
  import opened Reconciling
  import Btc = BtcWatching

  function Occurrences(s: seq<Output>, o: Output): nat {
    multiset(s)[o]
  }

  lemma {:induction false} OccurrencesOf(s: seq<Output>, t: seq<Output>, x: Output, o: Output)
    ensures Occurrences(s + t, o) == Occurrences(s, o) + Occurrences(t, o)
    ensures Occurrences([], o) == 0
    ensures Occurrences([x], o) == if x == o then 1 else 0
  {
  }

  predicate Unrecorded(o: Output, db: map<TxHash, DepositRecord>) {
    o.txId !in db
  }

  predicate Differs(o: Output, db: map<TxHash, DepositRecord>) {
    o.txId in db && db[o.txId].amount != o.amount
  }

  /** Every output is reported missing, or mismatched, as often as it occurs if it is, and never otherwise. */
  lemma {:induction false} CompareExactly(outs: seq<Output>, db: map<TxHash, DepositRecord>, o: Output)
    ensures var f := Compare(NOTHING, outs, db);
            && Occurrences(f.missing, o) == (if Unrecorded(o, db) then Occurrences(outs, o) else 0)
            && Occurrences(f.mismatched, o) == (if Differs(o, db) then Occurrences(outs, o) else 0)
  {
    hide Occurrences;
    if outs == [] {
      OccurrencesOf([], [], o, o);
    } else {
      var p, last := outs[..|outs| - 1], outs[|outs| - 1];
      var f := Compare(NOTHING, p, db);
      CompareExactly(p, db, o);
      assert outs == p + [last];
      OccurrencesOf(p, [last], last, o);
      OccurrencesOf(f.missing, [last], last, o);
      OccurrencesOf(f.mismatched, [last], last, o);
    }
  }

  lemma {:induction false} SeenExactly(outs: seq<Output>, db: map<TxHash, DepositRecord>, t: TxHash)
    ensures t in Compare(NOTHING, outs, db).seen <==> t in db && exists i :: 0 <= i < |outs| && outs[i].txId == t
  {
    if outs != [] {
      var n := |outs| - 1;
      SeenExactly(outs[..n], db, t);
      if i :| 0 <= i < n && outs[..n][i].txId == t {
        assert outs[i].txId == t;
      }
      if i :| 0 <= i < |outs| && outs[i].txId == t {
        assert i < n ==> outs[..n][i].txId == t;
      }
    }
  }

  /** An output of some loaded block of the window. */
  ghost predicate Sighted(sight: Sighting, lo: nat, hi: nat, h: nat, o: Output) {
    lo <= h < hi && o in At(sight, h)
  }

  lemma {:induction false} WindowMembers(sight: Sighting, lo: nat, hi: nat, o: Output)
    ensures o in Window(sight, lo, hi) <==> exists h: nat :: Sighted(sight, lo, hi, h, o)
    decreases hi
  {
    hide At;
    if lo < hi {
      var n := hi - 1;
      WindowMembers(sight, lo, n, o);
      assert Window(sight, lo, hi) == Window(sight, lo, n) + At(sight, n);
      assert o in Window(sight, lo, hi) <==> o in Window(sight, lo, n) || o in At(sight, n);
      forall h: nat
        ensures Sighted(sight, lo, hi, h, o) <==> Sighted(sight, lo, n, h, o) || (h == n && o in At(sight, n))
      {
      }
      assert o in At(sight, n) <==> Sighted(sight, lo, hi, n, o);
    }
  }

  lemma {:induction false} IndexHoldsRows(rows: seq<DepositRecord>, c: Chain, lo: nat, tip: nat)
    ensures forall t :: t in Index(rows, c, lo, tip) ==>
            Index(rows, c, lo, tip)[t].txId == t && Index(rows, c, lo, tip)[t] in rows
  {
    if rows != [] {
      var n := |rows| - 1;
      IndexHoldsRows(rows[..n], c, lo, tip);
      assert rows == rows[..n] + [rows[n]];
    }
  }

  /** The row of a tx_id in the range, when the table holds each tx_id once. */
  lemma {:induction false} IndexExactly(rows: seq<DepositRecord>, c: Chain, lo: nat, tip: nat, r: DepositRecord)
    requires DistinctTxs(rows)
    ensures r in rows && InRange(r, c, lo, tip) <==>
            r.txId in Index(rows, c, lo, tip) && Index(rows, c, lo, tip)[r.txId] == r
  {
    hide InRange;
    if rows != [] {
      var n := |rows| - 1;
      IndexExactly(rows[..n], c, lo, tip, r);
      assert r in rows <==> r in rows[..n] || r == rows[n];
      if r in rows[..n] {
        var i :| 0 <= i < n && rows[i] == r;
        assert r.txId != rows[n].txId;
      }
    }
  }

  /** An uncancelled pass. */
  ghost predicate Uncancelled(cancelled: nat -> bool, lo: nat, tip: nat) {
    forall h: nat :: lo <= h <= tip ==> !cancelled(h)
  }

  lemma {:induction false} StopAtEnd(cancelled: nat -> bool, lo: nat, hi: nat)
    requires lo <= hi
    ensures Stop(cancelled, lo, hi) == hi <==> forall h: nat :: lo <= h < hi ==> !cancelled(h)
    ensures Stop(cancelled, lo, hi) < hi ==> cancelled(Stop(cancelled, lo, hi))
    decreases hi - lo
  {
    if lo < hi && !cancelled(lo) {
      StopAtEnd(cancelled, lo + 1, hi);
    }
  }

  /** Some known output of the window belongs to the transaction. */
  ghost predicate Named(sight: Sighting, lo: nat, hi: nat, t: TxHash) {
    exists h: nat, o :: Sighted(sight, lo, hi, h, o) && o.txId == t
  }

  lemma {:induction false} NamedExactly(sight: Sighting, lo: nat, hi: nat, t: TxHash)
    ensures Named(sight, lo, hi, t) <==>
            exists i :: 0 <= i < |Window(sight, lo, hi)| && Window(sight, lo, hi)[i].txId == t
  {
    hide Window;
    var outs := Window(sight, lo, hi);
    if Named(sight, lo, hi, t) {
      var h: nat, o :| Sighted(sight, lo, hi, h, o) && o.txId == t;
      WindowMembers(sight, lo, hi, o);
      var i :| 0 <= i < |outs| && outs[i] == o;
    }
    if i :| 0 <= i < |outs| && outs[i].txId == t {
      WindowMembers(sight, lo, hi, outs[i]);
      var h: nat :| Sighted(sight, lo, hi, h, outs[i]);
    }
  }

  /**
   * An uncancelled pass finishes and reports exactly: as missing the known outputs of the window without a row in the
   * range, as mismatched those whose row has another amount, each as often as it occurs; as phantom the rows of the
   * range that no known output of the window names.
   */
  lemma {:induction false} ReconcileExactly(sight: Sighting, tip: nat, depth: nat, rows: seq<DepositRecord>, c: Chain,
                                            cancelled: nat -> bool, o: Output, t: TxHash)
    requires Uncancelled(cancelled, WindowStart(tip, depth), tip)
    ensures var lo := WindowStart(tip, depth);
            var outs, db := Window(sight, lo, tip + 1), Index(rows, c, lo, tip);
            var r := Reconcile(sight, tip, depth, rows, c, cancelled);
            && r.Finished?
            && Occurrences(r.missing, o) == (if Unrecorded(o, db) then Occurrences(outs, o) else 0)
            && Occurrences(r.mismatched, o) == (if Differs(o, db) then Occurrences(outs, o) else 0)
            && (t in r.phantom <==> t in db && !Named(sight, lo, tip + 1, t))
  {
    hide Compare, Index, Window, Occurrences;
    var lo := WindowStart(tip, depth);
    var outs, db := Window(sight, lo, tip + 1), Index(rows, c, lo, tip);
    StopAtEnd(cancelled, lo, tip + 1);
    CompareExactly(outs, db, o);
    SeenExactly(outs, db, t);
    NamedExactly(sight, lo, tip + 1, t);
  }

  /** Every known output of the window has its row with its amount, and every row of the range has an output. */
  ghost predicate Agrees(sight: Sighting, lo: nat, hi: nat, db: map<TxHash, DepositRecord>) {
    && (forall h: nat, o :: Sighted(sight, lo, hi, h, o) ==> o.txId in db && db[o.txId].amount == o.amount)
    && (forall t :: t in db ==> Named(sight, lo, hi, t))
  }

  lemma {:induction false} EmptyByCount(s: seq<Output>)
    ensures s == [] <==> forall o :: Occurrences(s, o) == 0
  {
    if s != [] {
      assert s[0] in multiset(s);
      assert Occurrences(s, s[0]) > 0;
    }
  }

  lemma {:induction false} OccursIfMember(s: seq<Output>, o: Output)
    ensures o in s <==> Occurrences(s, o) > 0
  {
    assert o in s <==> o in multiset(s);
  }

  /** A finished pass has nothing to report exactly when the chain and the table agree. */
  lemma {:induction false} CleanExactly(sight: Sighting, tip: nat, depth: nat, rows: seq<DepositRecord>, c: Chain,
                                        cancelled: nat -> bool)
    requires Uncancelled(cancelled, WindowStart(tip, depth), tip)
    ensures Reconcile(sight, tip, depth, rows, c, cancelled) == Finished([], [], {}) <==>
            Agrees(sight, WindowStart(tip, depth), tip + 1, Index(rows, c, WindowStart(tip, depth), tip))
  {
    hide Index, Window, Occurrences, Reconcile, Named;
    var lo, hi := WindowStart(tip, depth), tip + 1;
    var outs, db := Window(sight, lo, hi), Index(rows, c, lo, tip);
    var r := Reconcile(sight, tip, depth, rows, c, cancelled);
    forall o, t
      ensures r.Finished?
      ensures Occurrences(r.missing, o) == (if Unrecorded(o, db) then Occurrences(outs, o) else 0)
      ensures Occurrences(r.mismatched, o) == (if Differs(o, db) then Occurrences(outs, o) else 0)
      ensures t in r.phantom <==> t in db && !Named(sight, lo, hi, t)
    {
      ReconcileExactly(sight, tip, depth, rows, c, cancelled, o, t);
    }
    ReconcileExactly(sight, tip, depth, rows, c, cancelled, Output("", "", 0, 0), "");
    EmptyByCount(r.missing);
    EmptyByCount(r.mismatched);
    forall o
      ensures Occurrences(outs, o) > 0 <==> exists h: nat :: Sighted(sight, lo, hi, h, o)
    {
      WindowMembers(sight, lo, hi, o);
      OccursIfMember(outs, o);
    }
    if Agrees(sight, lo, hi, db) {
      assert r.missing == [] && r.mismatched == [] && r.phantom == {};
    }
    if r == Finished([], [], {}) {
      forall h: nat, o | Sighted(sight, lo, hi, h, o)
        ensures o.txId in db && db[o.txId].amount == o.amount
      {
        assert Occurrences(outs, o) > 0;
        assert Occurrences(r.missing, o) == 0 && Occurrences(r.mismatched, o) == 0;
      }
      forall t | t in db
        ensures Named(sight, lo, hi, t)
      {
        assert t !in r.phantom;
      }
    }
  }

  // ---- Blocks that fail to load ----

  /** The second pass sees what the first one does, except for blocks that fail to load. */
  ghost predicate LosesBlocks(more: Sighting, fewer: Sighting) {
    forall h: nat :: fewer(h) == None || fewer(h) == more(h)
  }

  lemma {:induction false} WindowLoses(more: Sighting, fewer: Sighting, lo: nat, hi: nat, o: Output)
    requires LosesBlocks(more, fewer)
    ensures Occurrences(Window(fewer, lo, hi), o) <= Occurrences(Window(more, lo, hi), o)
    decreases hi
  {
    hide Occurrences;
    if lo < hi {
      WindowLoses(more, fewer, lo, hi - 1, o);
      assert fewer(hi - 1) == None || fewer(hi - 1) == more(hi - 1);
      OccurrencesOf(Window(fewer, lo, hi - 1), At(fewer, hi - 1), o, o);
      OccurrencesOf(Window(more, lo, hi - 1), At(more, hi - 1), o, o);
    }
  }

  lemma {:induction false} NamedLoses(more: Sighting, fewer: Sighting, lo: nat, hi: nat, t: TxHash)
    requires LosesBlocks(more, fewer)
    ensures Named(fewer, lo, hi, t) ==> Named(more, lo, hi, t)
    ensures Named(fewer, lo, hi, t) <==>
            exists h: nat, o :: Sighted(more, lo, hi, h, o) && o.txId == t && fewer(h) != None
  {
    forall h: nat, o
      ensures Sighted(fewer, lo, hi, h, o) <==> Sighted(more, lo, hi, h, o) && fewer(h) != None
    {
      assert fewer(h) == None || fewer(h) == more(h);
    }
    if h: nat, o :| Sighted(fewer, lo, hi, h, o) && o.txId == t {
      assert Sighted(more, lo, hi, h, o);
    }
  }

  /**
   * Failing blocks only hide missing and mismatched outputs, and only add phantoms: a row becomes one exactly when it
   * has outputs in the window and all of them lie in blocks that now fail.
   */
  lemma {:induction false} FailuresOnlyHide(more: Sighting, fewer: Sighting, tip: nat, depth: nat,
                                            rows: seq<DepositRecord>, c: Chain, cancelled: nat -> bool, o: Output,
                                            t: TxHash)
    requires LosesBlocks(more, fewer) && Uncancelled(cancelled, WindowStart(tip, depth), tip)
    ensures var lo := WindowStart(tip, depth);
            var db := Index(rows, c, lo, tip);
            var r := Reconcile(more, tip, depth, rows, c, cancelled);
            var q := Reconcile(fewer, tip, depth, rows, c, cancelled);
            && r.Finished? && q.Finished?
            && Occurrences(q.missing, o) <= Occurrences(r.missing, o)
            && Occurrences(q.mismatched, o) <= Occurrences(r.mismatched, o)
            && r.phantom <= q.phantom
            && (t in q.phantom - r.phantom <==>
                  t in db && Named(more, lo, tip + 1, t) &&
                  forall h: nat, p :: Sighted(more, lo, tip + 1, h, p) && p.txId == t ==> fewer(h) == None)
  {
    hide Index, Window, Occurrences, Reconcile, Named;
    var lo := WindowStart(tip, depth);
    var r, q := Reconcile(more, tip, depth, rows, c, cancelled), Reconcile(fewer, tip, depth, rows, c, cancelled);
    ReconcileExactly(more, tip, depth, rows, c, cancelled, o, t);
    ReconcileExactly(fewer, tip, depth, rows, c, cancelled, o, t);
    WindowLoses(more, fewer, lo, tip + 1, o);
    forall u
      ensures u in r.phantom ==> u in q.phantom
    {
      ReconcileExactly(more, tip, depth, rows, c, cancelled, o, u);
      ReconcileExactly(fewer, tip, depth, rows, c, cancelled, o, u);
      NamedLoses(more, fewer, lo, tip + 1, u);
    }
    NamedLoses(more, fewer, lo, tip + 1, t);
  }

  lemma {:induction false} CompareGrows(f: Findings, outs: seq<Output>, db: map<TxHash, DepositRecord>)
    ensures f.missing <= Compare(f, outs, db).missing && f.mismatched <= Compare(f, outs, db).mismatched
  {
    if outs != [] {
      CompareGrows(f, outs[..|outs| - 1], db);
    }
  }

  lemma {:induction false} ComparePrefix(sight: Sighting, lo: nat, mid: nat, hi: nat, db: map<TxHash, DepositRecord>)
    requires lo <= mid <= hi
    ensures Compare(NOTHING, Window(sight, lo, mid), db).missing <= Compare(NOTHING, Window(sight, lo, hi), db).missing
    ensures Compare(NOTHING, Window(sight, lo, mid), db).mismatched <=
            Compare(NOTHING, Window(sight, lo, hi), db).mismatched
    decreases hi
  {
    if mid < hi {
      ComparePrefix(sight, lo, mid, hi - 1, db);
      CompareAppend(NOTHING, Window(sight, lo, hi - 1), At(sight, hi - 1), db);
      CompareGrows(Compare(NOTHING, Window(sight, lo, hi - 1), db), At(sight, hi - 1), db);
    }
  }

  /**
   * A pass is cancelled exactly when the context is found done before some block. It then reports no phantoms, and the
   * other findings are the first ones of the pass that would have run through.
   */
  lemma {:induction false} CancelledReportsAPrefix(sight: Sighting, tip: nat, depth: nat, rows: seq<DepositRecord>,
                                                   c: Chain, cancelled: nat -> bool, never: nat -> bool)
    requires Uncancelled(never, WindowStart(tip, depth), tip)
    ensures var r := Reconcile(sight, tip, depth, rows, c, cancelled);
            var full := Reconcile(sight, tip, depth, rows, c, never);
            && full.Finished?
            && (r.Cancelled? <==> !Uncancelled(cancelled, WindowStart(tip, depth), tip))
            && (r.Cancelled? ==> r.missing <= full.missing && r.mismatched <= full.mismatched)
            && (!r.Cancelled? ==> r == full)
  {
    hide Compare, Index, Window;
    var lo := WindowStart(tip, depth);
    StopAtEnd(cancelled, lo, tip + 1);
    StopAtEnd(never, lo, tip + 1);
    ComparePrefix(sight, lo, Stop(cancelled, lo, tip + 1), tip + 1, Index(rows, c, lo, tip));
  }

  // ---- Which outputs a block shows ----

  lemma {:induction false} EthOutputFrom(txs: seq<EthTx>, h: nat, known: set<Address>, o: Output) returns (i: nat)
    requires o in EthOutputs(txs, h, known)
    ensures i < |txs| && EthOutput(txs[i], h, known) == [o]
  {
    var n := |txs| - 1;
    if o in EthOutputs(txs[..n], h, known) {
      i := EthOutputFrom(txs[..n], h, known, o);
    } else {
      i := n;
    }
  }

  lemma {:induction false} EthOutputListed(txs: seq<EthTx>, h: nat, known: set<Address>, i: nat, o: Output)
    requires i < |txs| && EthOutput(txs[i], h, known) == [o]
    ensures o in EthOutputs(txs, h, known)
  {
    var n := |txs| - 1;
    if i < n {
      EthOutputListed(txs[..n], h, known, i, o);
    }
  }

  lemma {:induction false} VoutOutputFrom(txid: TxHash, vouts: seq<Vout>, h: nat, known: set<Address>,
                                          decodes: Address -> bool, o: Output)
    returns (j: nat)
    requires o in VoutOutputs(txid, vouts, h, known, decodes)
    ensures j < |vouts| && VoutOutput(txid, vouts[j], h, known, decodes) == [o]
  {
    var n := |vouts| - 1;
    if o in VoutOutputs(txid, vouts[..n], h, known, decodes) {
      j := VoutOutputFrom(txid, vouts[..n], h, known, decodes, o);
    } else {
      j := n;
    }
  }

  lemma {:induction false} BtcOutputFrom(block: BtcBlock, h: nat, known: set<Address>, decodes: Address -> bool,
                                         o: Output)
    returns (i: nat, j: nat)
    requires o in BtcOutputs(block, h, known, decodes)
    ensures i < |block| && j < |block[i].vouts|
    ensures VoutOutput(block[i].txid, block[i].vouts[j], h, known, decodes) == [o]
  {
    hide VoutOutputs;
    var n := |block| - 1;
    if o in BtcOutputs(block[..n], h, known, decodes) {
      i, j := BtcOutputFrom(block[..n], h, known, decodes, o);
    } else {
      i := n;
      j := VoutOutputFrom(block[n].txid, block[n].vouts, h, known, decodes, o);
    }
  }

  lemma {:induction false} VoutOutputListed(txid: TxHash, vouts: seq<Vout>, h: nat, known: set<Address>,
                                            decodes: Address -> bool, j: nat, o: Output)
    requires j < |vouts| && VoutOutput(txid, vouts[j], h, known, decodes) == [o]
    ensures o in VoutOutputs(txid, vouts, h, known, decodes)
  {
    var n := |vouts| - 1;
    if j < n {
      VoutOutputListed(txid, vouts[..n], h, known, decodes, j, o);
    }
  }

  lemma {:induction false} BtcOutputListed(block: BtcBlock, h: nat, known: set<Address>, decodes: Address -> bool,
                                           i: nat, j: nat, o: Output)
    requires i < |block| && j < |block[i].vouts|
    requires VoutOutput(block[i].txid, block[i].vouts[j], h, known, decodes) == [o]
    ensures o in BtcOutputs(block, h, known, decodes)
  {
    hide VoutOutputs;
    var n := |block| - 1;
    if i < n {
      BtcOutputListed(block[..n], h, known, decodes, i, j, o);
    } else {
      VoutOutputListed(block[n].txid, block[n].vouts, h, known, decodes, j, o);
    }
  }

  lemma {:induction false} OneTxOutputs(txid: TxHash, vouts: seq<Vout>, h: nat, known: set<Address>,
                                        decodes: Address -> bool)
    ensures BtcOutputs([BtcTx(txid, vouts)], h, known, decodes) == VoutOutputs(txid, vouts, h, known, decodes)
  {
    hide VoutOutputs;
    var block := [BtcTx(txid, vouts)];
    assert block[..0] == [];
  }

  lemma {:induction false} BtcOutputsConcat(a: BtcBlock, b: BtcBlock, h: nat, known: set<Address>,
                                            decodes: Address -> bool)
    ensures BtcOutputs(a + b, h, known, decodes) == BtcOutputs(a, h, known, decodes) + BtcOutputs(b, h, known, decodes)
  {
    hide VoutOutputs;
    if b == [] {
      assert a + b == a;
    } else {
      BtcOutputsConcat(a, b[..|b| - 1], h, known, decodes);
      assert (a + b)[..|a + b| - 1] == a + b[..|b| - 1];
    }
  }

  lemma {:induction false} VoutOutputsConcat(txid: TxHash, u: seq<Vout>, v: seq<Vout>, h: nat, known: set<Address>,
                                             decodes: Address -> bool)
    ensures VoutOutputs(txid, u + v, h, known, decodes) ==
            VoutOutputs(txid, u, h, known, decodes) + VoutOutputs(txid, v, h, known, decodes)
  {
    hide VoutOutput;
    if v == [] {
      assert u + v == u;
    } else {
      VoutOutputsConcat(txid, u, v[..|v| - 1], h, known, decodes);
      assert (u + v)[..|u + v| - 1] == u + v[..|v| - 1];
    }
  }

  /** The outputs of a Bitcoin block: those of its transactions in order, and of each the known and decodable ones. */
  lemma {:induction false} BtcOutputsInOrder(a: BtcBlock, b: BtcBlock, txid: TxHash, u: seq<Vout>, v: seq<Vout>,
                                             w: Vout, h: nat, known: set<Address>, decodes: Address -> bool)
    ensures BtcOutputs([], h, known, decodes) == [] && BtcOutputs([BtcTx(txid, [])], h, known, decodes) == []
    ensures BtcOutputs(a + b, h, known, decodes) == BtcOutputs(a, h, known, decodes) + BtcOutputs(b, h, known, decodes)
    ensures BtcOutputs([BtcTx(txid, u + v)], h, known, decodes) ==
            BtcOutputs([BtcTx(txid, u)], h, known, decodes) + BtcOutputs([BtcTx(txid, v)], h, known, decodes)
    ensures BtcOutputs([BtcTx(txid, [w])], h, known, decodes) ==
            if w.address != "" && w.address in known && decodes(w.address)
            then [Output(txId := txid, address := w.address, amount := w.amount, height := h)] else []
  {
    BtcOutputsConcat(a, b, h, known, decodes);
    VoutOutputsConcat(txid, u, v, h, known, decodes);
    OneTxOutputs(txid, [], h, known, decodes);
    OneTxOutputs(txid, u + v, h, known, decodes);
    OneTxOutputs(txid, u, h, known, decodes);
    OneTxOutputs(txid, v, h, known, decodes);
    OneTxOutputs(txid, [w], h, known, decodes);
    assert [w][..0] == [];
  }

  lemma {:induction false} EthOutputsConcat(a: seq<EthTx>, b: seq<EthTx>, h: nat, known: set<Address>)
    ensures EthOutputs(a + b, h, known) == EthOutputs(a, h, known) + EthOutputs(b, h, known)
  {
    hide EthOutput;
    if b == [] {
      assert a + b == a;
    } else {
      EthOutputsConcat(a, b[..|b| - 1], h, known);
      assert (a + b)[..|a + b| - 1] == a + b[..|b| - 1];
    }
  }

  /** The outputs of an Ethereum block: in order, those of its transactions with a known recipient. */
  lemma {:induction false} EthOutputsInOrder(a: seq<EthTx>, b: seq<EthTx>, tx: EthTx, h: nat, known: set<Address>)
    ensures EthOutputs([], h, known) == []
    ensures EthOutputs(a + b, h, known) == EthOutputs(a, h, known) + EthOutputs(b, h, known)
    ensures EthOutputs([tx], h, known) ==
            if tx.to.Some? && tx.to.value in known
            then [Output(txId := tx.hash, address := tx.to.value, amount := tx.value, height := h)] else []
  {
    assert [tx][..0] == [];
    EthOutputsConcat(a, b, h, known);
  }

  /** The output is a payment to a known address that decodes. */
  ghost predicate ShowsVout(tx: BtcTx, j: nat, known: set<Address>, decodes: Address -> bool, h: nat, o: Output)
    requires j < |tx.vouts|
  {
    && o.address != "" && o.address in known && decodes(o.address)
    && o.txId == tx.txid && o.address == tx.vouts[j].address && o.amount == tx.vouts[j].amount && o.height == h
  }

  /**
   * What a Bitcoin pass gets to see at a height: nothing if either call fails, and otherwise the block's known
   * outputs.
   */
  lemma {:induction false} BtcSightingExactly(v: Btc.PollView, known: set<Address>, decodes: Address -> bool, h: nat,
                                              o: Output)
    ensures BtcSighting(v, known, decodes)(h).Some? <==> v.hashAt(h).Some? && v.blockOf(v.hashAt(h).value).Some?
    ensures v.hashAt(h).Some? && v.blockOf(v.hashAt(h).value).Some? ==>
              var block := v.blockOf(v.hashAt(h).value).value;
              o in BtcSighting(v, known, decodes)(h).value <==>
                exists i, j :: 0 <= i < |block| && 0 <= j < |block[i].vouts| &&
                               ShowsVout(block[i], j, known, decodes, h, o)
  {
    if v.hashAt(h).Some? && v.blockOf(v.hashAt(h).value).Some? {
      var block := v.blockOf(v.hashAt(h).value).value;
      if o in BtcOutputs(block, h, known, decodes) {
        var i, j := BtcOutputFrom(block, h, known, decodes, o);
        assert ShowsVout(block[i], j, known, decodes, h, o);
      }
      if i, j :| 0 <= i < |block| && 0 <= j < |block[i].vouts| && ShowsVout(block[i], j, known, decodes, h, o) {
        BtcOutputListed(block, h, known, decodes, i, j, o);
      }
    }
  }

  /** The transaction is a payment to a known address. */
  ghost predicate ShowsTx(tx: EthTx, known: set<Address>, h: nat, o: Output) {
    && tx.to == Some(o.address) && o.address in known
    && o.txId == tx.hash && o.amount == tx.value && o.height == h
  }

  lemma {:induction false} EthSightingExactly(fetch: nat -> Option<EthBlock>, known: set<Address>, h: nat, o: Output)
    ensures EthSighting(fetch, known)(h).Some? <==> fetch(h).Some?
    ensures fetch(h).Some? ==>
              var txs := fetch(h).value.txs;
              o in EthSighting(fetch, known)(h).value <==>
                exists i :: 0 <= i < |txs| && ShowsTx(txs[i], known, h, o)
  {
    if fetch(h).Some? {
      var txs := fetch(h).value.txs;
      if o in EthOutputs(txs, h, known) {
        var i := EthOutputFrom(txs, h, known, o);
        assert ShowsTx(txs[i], known, h, o);
      }
      if i :| 0 <= i < |txs| && ShowsTx(txs[i], known, h, o) {
        EthOutputListed(txs, h, known, i, o);
      }
    }
  }

  lemma {:induction false} ParsedExactly(addresses: seq<string>, parse: string -> Option<Address>, a: Address)
    ensures a in ParsedAddresses(addresses, parse) <==>
            exists i :: 0 <= i < |addresses| && parse(addresses[i]) == Some(a)
  {
    if addresses != [] {
      var n := |addresses| - 1;
      ParsedExactly(addresses[..n], parse, a);
      if i :| 0 <= i < n && parse(addresses[..n][i]) == Some(a) {
        assert parse(addresses[i]) == Some(a);
      }
      if i :| 0 <= i < |addresses| && parse(addresses[i]) == Some(a) {
        assert i < n ==> parse(addresses[..n][i]) == Some(a);
      }
    }
  }

  // ---- A pass, by heights ----

  /** The pass goes over height h: it is at most depth below the tip. */
  ghost predicate Covers(tip: nat, depth: nat, h: nat) {
    h <= tip <= h + depth
  }

  /** A block of the covered heights loads and shows the output. */
  ghost predicate Seen(sight: Sighting, tip: nat, depth: nat, o: Output) {
    exists h: nat :: Covers(tip, depth, h) && sight(h).Some? && o in sight(h).value
  }

  ghost predicate SeenTx(sight: Sighting, tip: nat, depth: nat, t: TxHash) {
    exists o :: Seen(sight, tip, depth, o) && o.txId == t
  }

  /** The row is of the chain, of the transaction, and at a covered height. */
  ghost predicate RowFor(r: DepositRecord, c: Chain, t: TxHash, tip: nat, depth: nat) {
    r.chain == c && r.txId == t && r.height <= tip <= r.height + depth
  }

  ghost predicate HasRow(rows: seq<DepositRecord>, c: Chain, t: TxHash, tip: nat, depth: nat) {
    exists i :: 0 <= i < |rows| && RowFor(rows[i], c, t, tip, depth)
  }

  ghost predicate HasRowWithOtherAmount(rows: seq<DepositRecord>, c: Chain, o: Output, tip: nat, depth: nat) {
    exists i :: 0 <= i < |rows| && RowFor(rows[i], c, o.txId, tip, depth) && rows[i].amount != o.amount
  }

  ghost predicate NeverCancelled(cancelled: nat -> bool, tip: nat, depth: nat) {
    forall h: nat :: Covers(tip, depth, h) ==> !cancelled(h)
  }

  lemma {:induction false} WindowCovers(tip: nat, depth: nat, h: nat)
    ensures WindowStart(tip, depth) <= h < tip + 1 <==> Covers(tip, depth, h)
  {
  }

  lemma {:induction false} CancelledInWords(cancelled: nat -> bool, tip: nat, depth: nat)
    ensures Uncancelled(cancelled, WindowStart(tip, depth), tip) <==> NeverCancelled(cancelled, tip, depth)
  {
    forall h: nat
      ensures WindowStart(tip, depth) <= h <= tip <==> Covers(tip, depth, h)
    {
      WindowCovers(tip, depth, h);
    }
  }

  lemma {:induction false} SeenInWords(sight: Sighting, tip: nat, depth: nat, o: Output)
    ensures var lo, hi := WindowStart(tip, depth), tip + 1;
            Seen(sight, tip, depth, o) <==> exists h: nat :: Sighted(sight, lo, hi, h, o)
  {
    hide WindowStart;
    var lo, hi := WindowStart(tip, depth), tip + 1;
    if h: nat :| Covers(tip, depth, h) && sight(h).Some? && o in sight(h).value {
      WindowCovers(tip, depth, h);
      assert Sighted(sight, lo, hi, h, o);
    }
    if h: nat :| Sighted(sight, lo, hi, h, o) {
      WindowCovers(tip, depth, h);
    }
  }

  lemma {:induction false} NamedInWords(sight: Sighting, tip: nat, depth: nat, t: TxHash)
    ensures SeenTx(sight, tip, depth, t) <==> Named(sight, WindowStart(tip, depth), tip + 1, t)
  {
    hide WindowStart, Seen, Sighted;
    var lo, hi := WindowStart(tip, depth), tip + 1;
    if o :| Seen(sight, tip, depth, o) && o.txId == t {
      SeenInWords(sight, tip, depth, o);
      var h: nat :| Sighted(sight, lo, hi, h, o);
    }
    if h: nat, o :| Sighted(sight, lo, hi, h, o) && o.txId == t {
      SeenInWords(sight, tip, depth, o);
    }
  }

  lemma {:induction false} IndexInWords(rows: seq<DepositRecord>, c: Chain, tip: nat, depth: nat, o: Output)
    requires DistinctTxs(rows)
    ensures var db := Index(rows, c, WindowStart(tip, depth), tip);
            && (o.txId in db <==> HasRow(rows, c, o.txId, tip, depth))
            && (Differs(o, db) <==> HasRowWithOtherAmount(rows, c, o, tip, depth))
  {
    hide Index, WindowStart;
    var lo := WindowStart(tip, depth);
    var db := Index(rows, c, lo, tip);
    IndexHoldsRows(rows, c, lo, tip);
    if o.txId in db {
      var q := db[o.txId];
      IndexExactly(rows, c, lo, tip, q);
      WindowCovers(tip, depth, q.height);
      var i :| 0 <= i < |rows| && rows[i] == q;
      assert RowFor(rows[i], c, o.txId, tip, depth);
    }
    forall i | 0 <= i < |rows| && RowFor(rows[i], c, o.txId, tip, depth)
      ensures o.txId in db && db[o.txId] == rows[i]
    {
      WindowCovers(tip, depth, rows[i].height);
      IndexExactly(rows, c, lo, tip, rows[i]);
    }
  }

  /**
   * What an uncancelled pass reports, by heights: an output is missing if and only if a block at most depth below the
   * tip shows it and the table has no row of the chain for its transaction at such a height; mismatched if and only if
   * it is shown and has such a row with another amount; a transaction is a phantom if and only if it has such a row
   * and no such block shows it.
   */
  lemma {:induction false} ReconcileByHeights(sight: Sighting, tip: nat, depth: nat, rows: seq<DepositRecord>, c: Chain,
                                              cancelled: nat -> bool, o: Output, t: TxHash)
    requires DistinctTxs(rows) && NeverCancelled(cancelled, tip, depth)
    ensures var r := Reconcile(sight, tip, depth, rows, c, cancelled);
            && r.Finished?
            && (o in r.missing <==> Seen(sight, tip, depth, o) && !HasRow(rows, c, o.txId, tip, depth))
            && (o in r.mismatched <==> Seen(sight, tip, depth, o) && HasRowWithOtherAmount(rows, c, o, tip, depth))
            && (t in r.phantom <==> HasRow(rows, c, t, tip, depth) && !SeenTx(sight, tip, depth, t))
  {
    hide WindowStart, Index, Window, Reconcile, Occurrences, Differs, Sighted, Named, Seen, SeenTx, HasRow,
         HasRowWithOtherAmount, Uncancelled, NeverCancelled;
    var lo, r := WindowStart(tip, depth), Reconcile(sight, tip, depth, rows, c, cancelled);
    CancelledInWords(cancelled, tip, depth);
    ReconcileExactly(sight, tip, depth, rows, c, cancelled, o, t);
    OccursIfMember(r.missing, o);
    OccursIfMember(r.mismatched, o);
    OccursIfMember(Window(sight, lo, tip + 1), o);
    WindowMembers(sight, lo, tip + 1, o);
    SeenInWords(sight, tip, depth, o);
    NamedInWords(sight, tip, depth, t);
    IndexInWords(rows, c, tip, depth, o);
    IndexInWords(rows, c, tip, depth, Output(t, "", 0, 0));
  }

  /** Outputs carry the height of their block. */
  ghost predicate ShowsHeights(sight: Sighting) {
    forall h: nat, o :: sight(h).Some? && o in sight(h).value ==> o.height == h
  }

  lemma {:induction false} WindowCounts(sight: Sighting, lo: nat, hi: nat, o: Output)
    requires ShowsHeights(sight)
    ensures Occurrences(Window(sight, lo, hi), o) ==
            if lo <= o.height < hi && sight(o.height).Some? then Occurrences(sight(o.height).value, o) else 0
    decreases hi
  {
    hide Occurrences;
    OccurrencesOf([], [], o, o);
    if lo < hi {
      WindowCounts(sight, lo, hi - 1, o);
      OccurrencesOf(Window(sight, lo, hi - 1), At(sight, hi - 1), o, o);
      OccursIfMember(At(sight, hi - 1), o);
    }
  }

  /** And how often: an output is reported exactly as often as its block shows it. */
  lemma {:induction false} CountsByHeights(sight: Sighting, tip: nat, depth: nat, rows: seq<DepositRecord>, c: Chain,
                                           cancelled: nat -> bool, o: Output)
    requires DistinctTxs(rows) && NeverCancelled(cancelled, tip, depth) && ShowsHeights(sight)
    ensures var r := Reconcile(sight, tip, depth, rows, c, cancelled);
            var shown := if Covers(tip, depth, o.height) && sight(o.height).Some?
                         then multiset(sight(o.height).value)[o] else 0;
            && r.Finished?
            && multiset(r.missing)[o] == (if HasRow(rows, c, o.txId, tip, depth) then 0 else shown)
            && multiset(r.mismatched)[o] == (if HasRowWithOtherAmount(rows, c, o, tip, depth) then shown else 0)
  {
    hide WindowStart, Index, Window, Reconcile, Differs, Named, HasRow, HasRowWithOtherAmount, Uncancelled,
         NeverCancelled;
    CancelledInWords(cancelled, tip, depth);
    ReconcileExactly(sight, tip, depth, rows, c, cancelled, o, "");
    WindowCounts(sight, WindowStart(tip, depth), tip + 1, o);
    WindowCovers(tip, depth, o.height);
    IndexInWords(rows, c, tip, depth, o);
  }

  lemma {:induction false} EmptyIfNoMember(s: seq<Output>)
    ensures s == [] <==> forall o :: o !in s
  {
    assert s == [] || s[0] in s;
  }

  /**
   * An uncancelled pass has nothing to report if and only if every output shown by a block at most depth below the tip
   * has a row of the chain at such a height with its amount, and every such row's transaction is shown by such a
   * block.
   */
  lemma {:induction false} CleanByHeights(sight: Sighting, tip: nat, depth: nat, rows: seq<DepositRecord>, c: Chain,
                                          cancelled: nat -> bool)
    requires DistinctTxs(rows) && NeverCancelled(cancelled, tip, depth)
    ensures Reconcile(sight, tip, depth, rows, c, cancelled) == Finished([], [], {}) <==>
              && (forall o :: Seen(sight, tip, depth, o) ==>
                    HasRow(rows, c, o.txId, tip, depth) && !HasRowWithOtherAmount(rows, c, o, tip, depth))
              && (forall t :: HasRow(rows, c, t, tip, depth) ==> SeenTx(sight, tip, depth, t))
  {
    hide Reconcile, Seen, SeenTx, HasRow, HasRowWithOtherAmount, NeverCancelled;
    var r := Reconcile(sight, tip, depth, rows, c, cancelled);
    ReconcileByHeights(sight, tip, depth, rows, c, cancelled, Output("", "", 0, 0), "");
    forall o
      ensures o in r.missing <==> Seen(sight, tip, depth, o) && !HasRow(rows, c, o.txId, tip, depth)
      ensures o in r.mismatched <==> Seen(sight, tip, depth, o) && HasRowWithOtherAmount(rows, c, o, tip, depth)
    {
      ReconcileByHeights(sight, tip, depth, rows, c, cancelled, o, "");
    }
    forall t
      ensures t in r.phantom <==> HasRow(rows, c, t, tip, depth) && !SeenTx(sight, tip, depth, t)
    {
      ReconcileByHeights(sight, tip, depth, rows, c, cancelled, Output("", "", 0, 0), t);
    }
    EmptyIfNoMember(r.missing);
    EmptyIfNoMember(r.mismatched);
  }

  /** A pass is cancelled if and only if the context is done before some covered height; it then reports no phantoms. */
  lemma {:induction false} CancelledByHeights(sight: Sighting, tip: nat, depth: nat, rows: seq<DepositRecord>, c: Chain,
                                              cancelled: nat -> bool)
    ensures Reconcile(sight, tip, depth, rows, c, cancelled).Cancelled? <==>
            exists h: nat :: h <= tip <= h + depth && cancelled(h)
    ensures var r := Reconcile(sight, tip, depth, rows, c, cancelled);
            r.Cancelled? || r.Finished?
  {
    hide WindowStart, Index, Window, Compare;
    var never := (h: nat) => false;
    CancelledInWords(cancelled, tip, depth);
    CancelledReportsAPrefix(sight, tip, depth, rows, c, cancelled, never);
    if h: nat :| h <= tip <= h + depth && cancelled(h) {
      assert Covers(tip, depth, h);
    }
  }

  lemma {:induction false} StopIs(cancelled: nat -> bool, lo: nat, hi: nat, stop: nat)
    requires lo <= stop < hi && cancelled(stop) && forall h: nat :: lo <= h < stop ==> !cancelled(h)
    ensures Stop(cancelled, lo, hi) == stop
    decreases hi - lo
  {
    if lo < stop {
      StopIs(cancelled, lo + 1, hi, stop);
    }
  }

  /**
   * What a cancelled pass has reported: the missing and mismatched outputs of the covered blocks below the first
   * height at which it found the context done.
   */
  lemma {:induction false} CancelledFindings(sight: Sighting, tip: nat, depth: nat, rows: seq<DepositRecord>, c: Chain,
                                             cancelled: nat -> bool, stop: nat, o: Output)
    requires DistinctTxs(rows) && Covers(tip, depth, stop) && cancelled(stop)
    requires forall h: nat :: Covers(tip, depth, h) && h < stop ==> !cancelled(h)
    ensures var r := Reconcile(sight, tip, depth, rows, c, cancelled);
            var seen := exists h: nat :: Covers(tip, depth, h) && h < stop && sight(h).Some? && o in sight(h).value;
            && r.Cancelled?
            && (o in r.missing <==> seen && !HasRow(rows, c, o.txId, tip, depth))
            && (o in r.mismatched <==> seen && HasRowWithOtherAmount(rows, c, o, tip, depth))
  {
    hide WindowStart, Index, Window, Compare, Differs, HasRow, HasRowWithOtherAmount, Occurrences;
    var lo := WindowStart(tip, depth);
    forall h: nat
      ensures lo <= h < tip + 1 <==> Covers(tip, depth, h)
    {
      WindowCovers(tip, depth, h);
    }
    StopIs(cancelled, lo, tip + 1, stop);
    var r, outs := Reconcile(sight, tip, depth, rows, c, cancelled), Window(sight, lo, stop);
    CompareExactly(outs, Index(rows, c, lo, tip), o);
    IndexInWords(rows, c, tip, depth, o);
    OccursIfMember(r.missing, o);
    OccursIfMember(r.mismatched, o);
    OccursIfMember(outs, o);
    WindowMembers(sight, lo, stop, o);
    if h: nat :| Covers(tip, depth, h) && h < stop && sight(h).Some? && o in sight(h).value {
      assert Sighted(sight, lo, stop, h, o);
    }
    if h: nat :| Sighted(sight, lo, stop, h, o) {
      assert Covers(tip, depth, h);
    }
  }
}

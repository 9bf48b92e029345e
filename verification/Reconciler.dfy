/** Reconciliation of a window of the chain with the deposits table. */
module Reconciling {
  import opened Basics
  import opened Deposits
  import Btc = BtcWatching

  /** A payment to a known address, found on the chain. */
  datatype Output = Output(txId: TxHash, address: Address, amount: nat, height: nat)

  /** The chain as one pass gets to see it: the known outputs of each height, or None where the block did not load. */
  type Sighting = nat -> Option<seq<Output>>

  /** What the pass has counted, and the tx_ids of rows it has met. */
  datatype Findings = Findings(missing: seq<Output>, mismatched: seq<Output>, seen: set<TxHash>)

  datatype Outcome =
    | Skipped
    | Cancelled(missing: seq<Output>, mismatched: seq<Output>)
    | Finished(missing: seq<Output>, mismatched: seq<Output>, phantom: set<TxHash>)

  const NOTHING := Findings([], [], {})

  function CompareOne(f: Findings, o: Output, db: map<TxHash, DepositRecord>): Findings {
    if o.txId !in db then f.(missing := f.missing + [o])
    else if db[o.txId].amount != o.amount then f.(mismatched := f.mismatched + [o], seen := f.seen + {o.txId})
    else f.(seen := f.seen + {o.txId})
  }

  /** The comparison of a list of outputs with the rows, going on from earlier findings. */
  function Compare(f: Findings, outs: seq<Output>, db: map<TxHash, DepositRecord>): Findings {
    if outs == [] then f else CompareOne(Compare(f, outs[..|outs| - 1], db), outs[|outs| - 1], db)
  }

  function At(sight: Sighting, h: nat): seq<Output> {
    match sight(h)
    case None => []
    case Some(outs) => outs
  }

  /** The known outputs at heights lo, ..., hi - 1, as far as the blocks loaded. */
  function Window(sight: Sighting, lo: nat, hi: nat): seq<Output>
    decreases hi
  {
    if hi <= lo then [] else Window(sight, lo, hi - 1) + At(sight, hi - 1)
  }

  function WindowStart(tip: nat, depth: nat): nat {
    if tip > depth then tip - depth else 0
  }

  predicate InRange(r: DepositRecord, c: Chain, lo: nat, tip: nat) {
    r.chain == c && lo <= r.height <= tip
  }

  /** The rows of the range, by tx_id. */
  function Index(rows: seq<DepositRecord>, c: Chain, lo: nat, tip: nat): map<TxHash, DepositRecord> {
    if rows == [] then map[]
    else
      var p := Index(rows[..|rows| - 1], c, lo, tip);
      var r := rows[|rows| - 1];
      if InRange(r, c, lo, tip) then p[r.txId := r] else p
  }

  /** The first height in lo, ..., hi - 1 before which the context is found cancelled, or hi. */
  function Stop(cancelled: nat -> bool, lo: nat, hi: nat): (s: nat)
    requires lo <= hi
    ensures lo <= s <= hi
    decreases hi - lo
  {
    if lo == hi || cancelled(lo) then lo else Stop(cancelled, lo + 1, hi)
  }

  function Reconcile(sight: Sighting, tip: nat, depth: nat, rows: seq<DepositRecord>, c: Chain,
                     cancelled: nat -> bool): Outcome {
    var lo := WindowStart(tip, depth);
    var db := Index(rows, c, lo, tip);
    var stop := Stop(cancelled, lo, tip + 1);
    var f := Compare(NOTHING, Window(sight, lo, stop), db);
    if stop <= tip then Cancelled(f.missing, f.mismatched)
    else Finished(f.missing, f.mismatched, db.Keys - f.seen)
  }

  // ---- The outputs of a Bitcoin block ----

  function VoutOutput(txid: TxHash, v: Vout, h: nat, known: set<Address>, decodes: Address -> bool): seq<Output> {
    if v.address != "" && v.address in known && decodes(v.address) then [Output(txid, v.address, v.amount, h)] else []
  }

  function VoutOutputs(txid: TxHash, vouts: seq<Vout>, h: nat, known: set<Address>,
                       decodes: Address -> bool): seq<Output> {
    if vouts == [] then []
    else
      VoutOutputs(txid, vouts[..|vouts| - 1], h, known, decodes) +
      VoutOutput(txid, vouts[|vouts| - 1], h, known, decodes)
  }

  function BtcOutputs(block: BtcBlock, h: nat, known: set<Address>, decodes: Address -> bool): seq<Output> {
    if block == [] then []
    else
      BtcOutputs(block[..|block| - 1], h, known, decodes) +
      VoutOutputs(block[|block| - 1].txid, block[|block| - 1].vouts, h, known, decodes)
  }

  function BtcSighting(v: Btc.PollView, known: set<Address>, decodes: Address -> bool): Sighting {
    (h: nat) => match v.Load(h)
         case None => None
         case Some(block) => Some(BtcOutputs(block, h, known, decodes))
  }

  // ---- The outputs of an Ethereum block ----

  function EthOutput(tx: EthTx, h: nat, known: set<Address>): seq<Output> {
    if tx.to.Some? && tx.to.value in known then [Output(tx.hash, tx.to.value, tx.value, h)] else []
  }

  function EthOutputs(txs: seq<EthTx>, h: nat, known: set<Address>): seq<Output> {
    if txs == [] then []
    else EthOutputs(txs[..|txs| - 1], h, known) + EthOutput(txs[|txs| - 1], h, known)
  }

  function EthSighting(fetch: nat -> Option<EthBlock>, known: set<Address>): Sighting {
    (h: nat) => match fetch(h)
         case None => None
         case Some(block) => Some(EthOutputs(block.txs, h, known))
  }

  /** The addresses that parse, in the form in which transactions name them. */
  function ParsedAddresses(addresses: seq<string>, parse: string -> Option<Address>): set<Address> {
    if addresses == [] then {}
    else
      var p := ParsedAddresses(addresses[..|addresses| - 1], parse);
      match parse(addresses[|addresses| - 1])
      case None => p
      case Some(a) => p + {a}
  }

  // ---- The passes ----

  method LoadRows(rows: seq<DepositRecord>, c: Chain, lo: nat, tip: nat) returns (db: map<TxHash, DepositRecord>)
    ensures db == Index(rows, c, lo, tip)
  {
    db := map[];
    for i := 0 to |rows|
      invariant db == Index(rows[..i], c, lo, tip)
    {
      assert rows[..i + 1][..i] == rows[..i];
      if InRange(rows[i], c, lo, tip) {
        db := db[rows[i].txId := rows[i]];
      }
    }
    assert rows[..|rows|] == rows;
  }

  lemma {:induction false} CompareAppend(f: Findings, a: seq<Output>, b: seq<Output>, db: map<TxHash, DepositRecord>)
    ensures Compare(f, a + b, db) == Compare(Compare(f, a, db), b, db)
  {
    if b == [] {
      assert a + b == a;
    } else {
      CompareAppend(f, a, b[..|b| - 1], db);
      assert (a + b)[..|a + b| - 1] == a + b[..|b| - 1];
    }
  }

  lemma {:induction false} CompareSingle(f: Findings, o: Output, db: map<TxHash, DepositRecord>)
    ensures Compare(f, [o], db) == CompareOne(f, o, db)
    ensures Compare(f, [], db) == f
  {
    assert [o][..0] == [];
  }

  /** The innermost comparison of both passes. */
  method Check(o: Output, db: map<TxHash, DepositRecord>, f: Findings) returns (g: Findings)
    ensures g == CompareOne(f, o, db)
  {
    g := f;
    if o.txId !in db {
      g := g.(missing := g.missing + [o]);
    } else {
      g := g.(seen := g.seen + {o.txId});
      if db[o.txId].amount != o.amount {
        g := g.(mismatched := g.mismatched + [o]);
      }
    }
  }

  method CheckVout(txid: TxHash, vout: Vout, h: nat, known: set<Address>, decodes: Address -> bool,
                   db: map<TxHash, DepositRecord>, f: Findings)
    returns (g: Findings)
    ensures g == Compare(f, VoutOutput(txid, vout, h, known, decodes), db)
  {
    g := f;
    if |vout.address| == 0 {
      return;
    }
    if vout.address !in known {
      return;
    }
    if !decodes(vout.address) {
      return;
    }
    var o := Output(txid, vout.address, vout.amount, h);
    CompareSingle(f, o, db);
    g := Check(o, db, f);
  }

  method CheckBtcTx(tx: BtcTx, h: nat, known: set<Address>, decodes: Address -> bool, db: map<TxHash, DepositRecord>,
                    f: Findings)
    returns (g: Findings)
    ensures g == Compare(f, VoutOutputs(tx.txid, tx.vouts, h, known, decodes), db)
  {
    g := f;
    for j := 0 to |tx.vouts|
      invariant g == Compare(f, VoutOutputs(tx.txid, tx.vouts[..j], h, known, decodes), db)
    {
      hide Compare, VoutOutput;
      assert tx.vouts[..j + 1][..j] == tx.vouts[..j];
      CompareAppend(f, VoutOutputs(tx.txid, tx.vouts[..j], h, known, decodes),
                    VoutOutput(tx.txid, tx.vouts[j], h, known, decodes), db);
      g := CheckVout(tx.txid, tx.vouts[j], h, known, decodes, db, g);
    }
    assert tx.vouts[..|tx.vouts|] == tx.vouts;
  }

  method CheckBtcBlock(block: BtcBlock, h: nat, known: set<Address>, decodes: Address -> bool,
                       db: map<TxHash, DepositRecord>, f: Findings)
    returns (g: Findings)
    ensures g == Compare(f, BtcOutputs(block, h, known, decodes), db)
  {
    g := f;
    for i := 0 to |block|
      invariant g == Compare(f, BtcOutputs(block[..i], h, known, decodes), db)
    {
      hide Compare, VoutOutputs;
      assert block[..i + 1][..i] == block[..i];
      CompareAppend(f, BtcOutputs(block[..i], h, known, decodes),
                    VoutOutputs(block[i].txid, block[i].vouts, h, known, decodes), db);
      g := CheckBtcTx(block[i], h, known, decodes, db, g);
    }
    assert block[..|block|] == block;
  }

  /** A pass that has compared the window below h stands where the specification does. */
  ghost predicate Midway(sight: Sighting, lo: nat, h: nat, tip: nat, f: Findings, db: map<TxHash, DepositRecord>,
                         cancelled: nat -> bool) {
    && lo <= h <= tip + 1
    && f == Compare(NOTHING, Window(sight, lo, h), db)
    && Stop(cancelled, lo, tip + 1) == Stop(cancelled, h, tip + 1)
  }

  lemma {:induction false} FirstHeight(sight: Sighting, lo: nat, tip: nat, db: map<TxHash, DepositRecord>,
                                       cancelled: nat -> bool)
    requires lo <= tip + 1
    ensures Midway(sight, lo, lo, tip, NOTHING, db, cancelled)
  {
  }

  lemma {:induction false} NextHeight(sight: Sighting, lo: nat, h: nat, tip: nat, f: Findings,
                                      db: map<TxHash, DepositRecord>, cancelled: nat -> bool)
    requires Midway(sight, lo, h, tip, f, db, cancelled) && h <= tip && !cancelled(h)
    ensures Midway(sight, lo, h + 1, tip, Compare(f, At(sight, h), db), db, cancelled)
    ensures sight(h).None? ==> Compare(f, At(sight, h), db) == f
  {
    CompareAppend(NOTHING, Window(sight, lo, h), At(sight, h), db);
  }

  lemma {:induction false} LastHeight(sight: Sighting, h: nat, tip: nat, depth: nat, f: Findings,
                                      rows: seq<DepositRecord>, c: Chain, cancelled: nat -> bool)
    requires Midway(sight, WindowStart(tip, depth), h, tip, f, Index(rows, c, WindowStart(tip, depth), tip), cancelled)
    requires h > tip || cancelled(h)
    ensures Reconcile(sight, tip, depth, rows, c, cancelled) ==
            if h <= tip then Cancelled(f.missing, f.mismatched)
            else Finished(f.missing, f.mismatched, Index(rows, c, WindowStart(tip, depth), tip).Keys - f.seen)
  {
  }

  /** reconcileBTC; tableOk tells whether the query on the deposits table was served. */
  method ReconcileBtc(v: Btc.PollView, depth: nat, addresses: seq<Address>, decodes: Address -> bool,
                      rows: seq<DepositRecord>, tableOk: bool, cancelled: nat -> bool) returns (r: Outcome)
    ensures r == if v.tip.None? || !tableOk then Skipped
                 else Reconcile(BtcSighting(v, (set a | a in addresses), decodes), v.tip.value, depth, rows, BTC,
                                cancelled)
  {
    hide Compare, Index, Window, Stop, Reconcile, Midway, BtcOutputs;
    var known := set a | a in addresses;
    if v.tip.None? || !tableOk {
      return Skipped;
    }
    var tip := v.tip.value;
    var lo := WindowStart(tip, depth);
    var db := LoadRows(rows, BTC, lo, tip);
    var f := NOTHING;
    var h := lo;
    ghost var sight := BtcSighting(v, known, decodes);
    FirstHeight(sight, lo, tip, db, cancelled);
    while h <= tip
      invariant lo <= h <= tip + 1 && Midway(sight, lo, h, tip, f, db, cancelled)
    {
      if cancelled(h) {
        LastHeight(sight, h, tip, depth, f, rows, BTC, cancelled);
        return Cancelled(f.missing, f.mismatched);
      }
      NextHeight(sight, lo, h, tip, f, db, cancelled);
      var reply := v.Load(h);
      if reply.Some? {
        f := CheckBtcBlock(reply.value, h, known, decodes, db, f);
      }
      h := h + 1;
    }
    LastHeight(sight, h, tip, depth, f, rows, BTC, cancelled);
    return Finished(f.missing, f.mismatched, db.Keys - f.seen);
  }

  method CheckEthTx(tx: EthTx, h: nat, known: set<Address>, db: map<TxHash, DepositRecord>, f: Findings)
    returns (g: Findings)
    ensures g == Compare(f, EthOutput(tx, h, known), db)
  {
    g := f;
    if tx.to.None? {
      return;
    }
    if tx.to.value !in known {
      return;
    }
    var o := Output(tx.hash, tx.to.value, tx.value, h);
    CompareSingle(f, o, db);
    g := Check(o, db, f);
  }

  method CheckEthBlock(txs: seq<EthTx>, h: nat, known: set<Address>, db: map<TxHash, DepositRecord>, f: Findings)
    returns (g: Findings)
    ensures g == Compare(f, EthOutputs(txs, h, known), db)
  {
    g := f;
    for i := 0 to |txs|
      invariant g == Compare(f, EthOutputs(txs[..i], h, known), db)
    {
      hide Compare, EthOutput;
      assert txs[..i + 1][..i] == txs[..i];
      CompareAppend(f, EthOutputs(txs[..i], h, known), EthOutput(txs[i], h, known), db);
      g := CheckEthTx(txs[i], h, known, db, g);
    }
    assert txs[..|txs|] == txs;
  }

  /** reconcileETH, which does nothing when no stored address parses. */
  method ReconcileEth(headTip: Option<nat>, fetch: nat -> Option<EthBlock>, depth: nat, addresses: seq<string>,
                      parse: string -> Option<Address>, rows: seq<DepositRecord>, tableOk: bool, cancelled: nat -> bool)
    returns (r: Outcome)
    ensures r == if ParsedAddresses(addresses, parse) == {} || headTip.None? || !tableOk then Skipped
                 else Reconcile(EthSighting(fetch, ParsedAddresses(addresses, parse)), headTip.value, depth, rows, ETH,
                                cancelled)
  {
    hide Compare, Index, Window, Stop, Reconcile, Midway, EthOutputs;
    var known: set<Address> := {};
    for i := 0 to |addresses|
      invariant known == ParsedAddresses(addresses[..i], parse)
    {
      assert addresses[..i + 1][..i] == addresses[..i];
      var a := parse(addresses[i]);
      if a.Some? {
        known := known + {a.value};
      }
    }
    assert addresses[..|addresses|] == addresses;
    if known == {} || headTip.None? || !tableOk {
      return Skipped;
    }
    var tip := headTip.value;
    var lo := WindowStart(tip, depth);
    var db := LoadRows(rows, ETH, lo, tip);
    var f := NOTHING;
    var h := lo;
    ghost var sight := EthSighting(fetch, known);
    FirstHeight(sight, lo, tip, db, cancelled);
    while h <= tip
      invariant lo <= h <= tip + 1 && Midway(sight, lo, h, tip, f, db, cancelled)
    {
      if cancelled(h) {
        LastHeight(sight, h, tip, depth, f, rows, ETH, cancelled);
        return Cancelled(f.missing, f.mismatched);
      }
      NextHeight(sight, lo, h, tip, f, db, cancelled);
      var reply := fetch(h);
      if reply.Some? {
        f := CheckEthBlock(reply.value.txs, h, known, db, f);
      }
      h := h + 1;
    }
    LastHeight(sight, h, tip, depth, f, rows, ETH, cancelled);
    return Finished(f.missing, f.mismatched, db.Keys - f.seen);
  }
}

/** Blocks, deposit records and the address registry that the watchers read. */
module Deposits {
  import opened Basics

  type Address = string
  type UserId = string
  type TxHash = string

  datatype Chain = BTC | ETH

  /** What a watcher hands over; amounts are in units of 1e-8 coin. */
  datatype DepositRecord = DepositRecord(txId: TxHash, address: Address, userId: UserId, amount: nat, height: nat,
                                         chain: Chain)

  /** address -> user, for all chains. */
  type Registry = map<Address, UserId>

  // ---- Ethereum blocks ----

  datatype EthTx = EthTx(hash: TxHash, to: Option<Address>, value: nat)

  /**
   * A block together with all of its ancestors. A block hash fixes the block, its number and its parent hash,
   * so the block itself stands for its hash, and equal hashes mean equal histories.
   */
  datatype EthBlock = Genesis(txs: seq<EthTx>) | Child(parent: EthBlock, txs: seq<EthTx>) {
    function Number(): nat {
      if Genesis? then 0 else parent.Number() + 1
    }

    /** None is the zero hash. */
    function ParentHash(): Option<EthBlock> {
      if Genesis? then None else Some(parent)
    }
  }

  /** The record of one transaction, if it pays a registered address. */
  function EthDeposit(tx: EthTx, height: nat, registry: Registry): seq<DepositRecord> {
    if tx.to.Some? && tx.to.value in registry then
      [DepositRecord(tx.hash, tx.to.value, registry[tx.to.value], tx.value, height, ETH)]
    else []
  }

  /** The records of a list of transactions, in order. */
  function EthDeposits(txs: seq<EthTx>, height: nat, registry: Registry): seq<DepositRecord> {
    if txs == [] then []
    else EthDeposits(txs[..|txs| - 1], height, registry) + EthDeposit(txs[|txs| - 1], height, registry)
  }

  /** Every record stems from one of the transactions. */
  lemma {:induction false} DepositFrom(txs: seq<EthTx>, height: nat, registry: Registry, r: DepositRecord)
    returns (i: nat)
    requires r in EthDeposits(txs, height, registry)
    ensures i < |txs| && EthDeposit(txs[i], height, registry) == [r]
  {
    var n := |txs| - 1;
    if r in EthDeposits(txs[..n], height, registry) {
      i := DepositFrom(txs[..n], height, registry, r);
    } else {
      i := n;
    }
  }

  /** Every transaction that pays a registered address has its record. */
  lemma {:induction false} DepositListed(txs: seq<EthTx>, height: nat, registry: Registry, i: nat, r: DepositRecord)
    requires i < |txs| && EthDeposit(txs[i], height, registry) == [r]
    ensures r in EthDeposits(txs, height, registry)
  {
    var n := |txs| - 1;
    if i < n {
      DepositListed(txs[..n], height, registry, i, r);
    }
  }

  lemma {:induction false} EthDepositsConcat(a: seq<EthTx>, b: seq<EthTx>, h: nat, registry: Registry)
    ensures EthDeposits(a + b, h, registry) == EthDeposits(a, h, registry) + EthDeposits(b, h, registry)
  {
    hide EthDeposit;
    if b == [] {
      assert a + b == a;
    } else {
      EthDepositsConcat(a, b[..|b| - 1], h, registry);
      assert (a + b)[..|a + b| - 1] == a + b[..|b| - 1];
    }
  }

  /**
   * The records of a block's transactions, in order: of each payment to a registered address one, with the
   * transaction, the address, its user, the amount, the height and the chain.
   */
  lemma {:induction false} EthDepositsInOrder(a: seq<EthTx>, b: seq<EthTx>, tx: EthTx, h: nat, registry: Registry)
    ensures EthDeposits([], h, registry) == []
    ensures EthDeposits(a + b, h, registry) == EthDeposits(a, h, registry) + EthDeposits(b, h, registry)
    ensures EthDeposits([tx], h, registry) ==
            if tx.to.Some? && tx.to.value in registry
            then [DepositRecord(txId := tx.hash, address := tx.to.value, userId := registry[tx.to.value],
                                amount := tx.value, height := h, chain := ETH)] else []
  {
    assert [tx][..0] == [];
    EthDepositsConcat(a, b, h, registry);
  }

  // ---- Bitcoin blocks ----

  datatype Vout = Vout(address: Address, amount: nat)
  datatype BtcTx = BtcTx(txid: TxHash, vouts: seq<Vout>)
  type BtcBlock = seq<BtcTx>

  /** The record of one output: it must carry an address that decodes and is registered. */
  function VoutDeposit(txid: TxHash, v: Vout, height: nat, registry: Registry,
                       decodes: Address -> bool): seq<DepositRecord> {
    if v.address != "" && decodes(v.address) && v.address in registry then
      [DepositRecord(txid, v.address, registry[v.address], v.amount, height, BTC)]
    else []
  }

  function VoutDeposits(txid: TxHash, vouts: seq<Vout>, height: nat, registry: Registry,
                        decodes: Address -> bool): seq<DepositRecord> {
    if vouts == [] then []
    else
      VoutDeposits(txid, vouts[..|vouts| - 1], height, registry, decodes) +
      VoutDeposit(txid, vouts[|vouts| - 1], height, registry, decodes)
  }

  function BtcDeposits(block: BtcBlock, height: nat, registry: Registry, decodes: Address -> bool): seq<DepositRecord> {
    if block == [] then []
    else
      BtcDeposits(block[..|block| - 1], height, registry, decodes) +
      VoutDeposits(block[|block| - 1].txid, block[|block| - 1].vouts, height, registry, decodes)
  }

  lemma {:induction false} VoutDepositFrom(txid: TxHash, vouts: seq<Vout>, h: nat, registry: Registry,
                                           decodes: Address -> bool, r: DepositRecord)
    returns (j: nat)
    requires r in VoutDeposits(txid, vouts, h, registry, decodes)
    ensures j < |vouts| && VoutDeposit(txid, vouts[j], h, registry, decodes) == [r]
  {
    var n := |vouts| - 1;
    if r in VoutDeposits(txid, vouts[..n], h, registry, decodes) {
      j := VoutDepositFrom(txid, vouts[..n], h, registry, decodes, r);
    } else {
      j := n;
    }
  }

  lemma {:induction false} BtcDepositFrom(block: BtcBlock, h: nat, registry: Registry, decodes: Address -> bool,
                                          r: DepositRecord)
    returns (i: nat, j: nat)
    requires r in BtcDeposits(block, h, registry, decodes)
    ensures i < |block| && j < |block[i].vouts|
    ensures VoutDeposit(block[i].txid, block[i].vouts[j], h, registry, decodes) == [r]
  {
    hide VoutDeposits;
    var n := |block| - 1;
    if r in BtcDeposits(block[..n], h, registry, decodes) {
      i, j := BtcDepositFrom(block[..n], h, registry, decodes, r);
    } else {
      i := n;
      j := VoutDepositFrom(block[n].txid, block[n].vouts, h, registry, decodes, r);
    }
  }

  lemma {:induction false} VoutDepositListed(txid: TxHash, vouts: seq<Vout>, h: nat, registry: Registry,
                                             decodes: Address -> bool, j: nat, r: DepositRecord)
    requires j < |vouts| && VoutDeposit(txid, vouts[j], h, registry, decodes) == [r]
    ensures r in VoutDeposits(txid, vouts, h, registry, decodes)
  {
    var n := |vouts| - 1;
    if j < n {
      VoutDepositListed(txid, vouts[..n], h, registry, decodes, j, r);
    }
  }

  lemma {:induction false} BtcDepositListed(block: BtcBlock, h: nat, registry: Registry, decodes: Address -> bool,
                                            i: nat, j: nat, r: DepositRecord)
    requires i < |block| && j < |block[i].vouts|
    requires VoutDeposit(block[i].txid, block[i].vouts[j], h, registry, decodes) == [r]
    ensures r in BtcDeposits(block, h, registry, decodes)
  {
    hide VoutDeposits;
    var n := |block| - 1;
    if i < n {
      BtcDepositListed(block[..n], h, registry, decodes, i, j, r);
    } else {
      VoutDepositListed(block[n].txid, block[n].vouts, h, registry, decodes, j, r);
    }
  }

  lemma {:induction false} OneTxDeposits(txid: TxHash, vouts: seq<Vout>, h: nat, registry: Registry,
                                         decodes: Address -> bool)
    ensures BtcDeposits([BtcTx(txid, vouts)], h, registry, decodes) == VoutDeposits(txid, vouts, h, registry, decodes)
  {
    hide VoutDeposits;
    var block := [BtcTx(txid, vouts)];
    assert block[..0] == [];
  }

  lemma {:induction false} BtcDepositsConcat(a: BtcBlock, b: BtcBlock, h: nat, registry: Registry,
                                             decodes: Address -> bool)
    ensures BtcDeposits(a + b, h, registry, decodes) ==
            BtcDeposits(a, h, registry, decodes) + BtcDeposits(b, h, registry, decodes)
  {
    hide VoutDeposits;
    if b == [] {
      assert a + b == a;
    } else {
      BtcDepositsConcat(a, b[..|b| - 1], h, registry, decodes);
      assert (a + b)[..|a + b| - 1] == a + b[..|b| - 1];
    }
  }

  lemma {:induction false} VoutDepositsConcat(txid: TxHash, u: seq<Vout>, v: seq<Vout>, h: nat, registry: Registry,
                                              decodes: Address -> bool)
    ensures VoutDeposits(txid, u + v, h, registry, decodes) ==
            VoutDeposits(txid, u, h, registry, decodes) + VoutDeposits(txid, v, h, registry, decodes)
  {
    hide VoutDeposit;
    if v == [] {
      assert u + v == u;
    } else {
      VoutDepositsConcat(txid, u, v[..|v| - 1], h, registry, decodes);
      assert (u + v)[..|u + v| - 1] == u + v[..|v| - 1];
    }
  }

  /**
   * The records of a Bitcoin block, in the order of its transactions and of their outputs: of each output with a
   * nonempty, decodable and registered address one, with the transaction, the address, its user, the amount, the
   * height and the chain.
   */
  lemma {:induction false} BtcDepositsInOrder(a: BtcBlock, b: BtcBlock, txid: TxHash, u: seq<Vout>, v: seq<Vout>,
                                              w: Vout, h: nat, registry: Registry, decodes: Address -> bool)
    ensures BtcDeposits([], h, registry, decodes) == [] && BtcDeposits([BtcTx(txid, [])], h, registry, decodes) == []
    ensures BtcDeposits(a + b, h, registry, decodes) ==
            BtcDeposits(a, h, registry, decodes) + BtcDeposits(b, h, registry, decodes)
    ensures BtcDeposits([BtcTx(txid, u + v)], h, registry, decodes) ==
            BtcDeposits([BtcTx(txid, u)], h, registry, decodes) + BtcDeposits([BtcTx(txid, v)], h, registry, decodes)
    ensures BtcDeposits([BtcTx(txid, [w])], h, registry, decodes) ==
            if w.address != "" && decodes(w.address) && w.address in registry
            then [DepositRecord(txId := txid, address := w.address, userId := registry[w.address],
                                amount := w.amount, height := h, chain := BTC)] else []
  {
    BtcDepositsConcat(a, b, h, registry, decodes);
    VoutDepositsConcat(txid, u, v, h, registry, decodes);
    OneTxDeposits(txid, [], h, registry, decodes);
    OneTxDeposits(txid, u + v, h, registry, decodes);
    OneTxDeposits(txid, u, h, registry, decodes);
    OneTxDeposits(txid, v, h, registry, decodes);
    OneTxDeposits(txid, [w], h, registry, decodes);
    assert [w][..0] == [];
  }

  // ---- Tables with a UNIQUE tx_id ----

  predicate HasTx(rows: seq<DepositRecord>, txId: TxHash) {
    exists i :: 0 <= i < |rows| && rows[i].txId == txId
  }

  predicate DistinctTxs(s: seq<DepositRecord>) {
    forall i, j :: 0 <= i < j < |s| ==> s[i].txId != s[j].txId
  }

  /** What remains of a stream of inserts when every repeated tx_id is refused. */
  function FirstByTx(s: seq<DepositRecord>): seq<DepositRecord> {
    if s == [] then []
    else
      var p := FirstByTx(s[..|s| - 1]);
      if HasTx(p, s[|s| - 1].txId) then p else p + [s[|s| - 1]]
  }

  lemma {:induction false} FirstByTxMembers(s: seq<DepositRecord>)
    ensures forall r :: r in FirstByTx(s) ==> r in s
    ensures forall r :: r in s ==> HasTx(FirstByTx(s), r.txId)
    ensures DistinctTxs(FirstByTx(s))
  {
    if s != [] {
      var n := |s| - 1;
      FirstByTxMembers(s[..n]);
      var p := FirstByTx(s[..n]);
      forall r | r in s
        ensures HasTx(FirstByTx(s), r.txId)
      {
        if r in s[..n] {
          var i :| 0 <= i < |p| && p[i].txId == r.txId;
          assert FirstByTx(s)[i].txId == r.txId;
        } else {
          assert r == s[n];
          assert !HasTx(p, r.txId) ==> FirstByTx(s)[|p|].txId == r.txId;
        }
      }
    }
  }

  lemma {:induction false} RepeatsChangeNothing(s: seq<DepositRecord>, t: seq<DepositRecord>)
    requires forall r :: r in t ==> HasTx(FirstByTx(s), r.txId)
    ensures FirstByTx(s + t) == FirstByTx(s)
  {
    if t == [] {
      assert s + t == s;
    } else {
      var n := |t| - 1;
      RepeatsChangeNothing(s, t[..n]);
      assert (s + t)[..|s + t| - 1] == s + t[..n];
      assert t[n] in t;
    }
  }

  lemma {:induction false} FirstByTxSnoc(s: seq<DepositRecord>, r: DepositRecord)
    ensures FirstByTx(s + [r]) == if HasTx(FirstByTx(s), r.txId) then FirstByTx(s) else FirstByTx(s) + [r]
  {
    assert (s + [r])[..|s|] == s;
  }

  lemma {:induction false} NewOnesAppend(s: seq<DepositRecord>, t: seq<DepositRecord>)
    requires DistinctTxs(FirstByTx(s) + t)
    ensures FirstByTx(s + t) == FirstByTx(s) + t
  {
    hide FirstByTx;
    if t == [] {
      assert s + t == s;
    } else {
      var n := |t| - 1;
      var all, u := FirstByTx(s) + t, FirstByTx(s) + t[..n];
      assert all == u + [t[n]];
      assert forall i :: 0 <= i < |u| ==> u[i] == all[i];
      assert all[|u|] == t[n] && !HasTx(u, t[n].txId);
      NewOnesAppend(s, t[..n]);
      FirstByTxSnoc(s + t[..n], t[n]);
      assert s + t == s + t[..n] + [t[n]];
    }
  }

  lemma {:induction false} DistinctAppend(s: seq<DepositRecord>, t: seq<DepositRecord>)
    requires DistinctTxs(s) && DistinctTxs(t)
    requires forall a, b :: a in s && b in t ==> a.txId != b.txId
    ensures DistinctTxs(s + t)
  {
    var all := s + t;
    forall i, j | 0 <= i < j < |all|
      ensures all[i].txId != all[j].txId
    {
      if i < |s| <= j {
        assert all[i] in s && all[j] in t;
      }
    }
  }
}

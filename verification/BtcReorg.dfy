/** What a reorganisation costs the Bitcoin watcher. */
module BtcReorgs {
  import opened Basics
  import opened Deposits
  import opened BtcWatching

  // ---- Whom the records credit ----

  /** The record of output j of transaction i of a loaded block, field by field. */
  ghost predicate RecordOf(e: Attempt, i: int, j: int, decodes: Address -> bool, r: DepositRecord) {
    && e.block.Some? && 0 <= i < |e.block.value| && 0 <= j < |e.block.value[i].vouts|
    && var a := e.block.value[i].vouts[j].address;
    && a != "" && decodes(a) && a in e.registry
    && r.txId == e.block.value[i].txid
    && r.address == a
    && r.userId == e.registry[a]
    && r.amount == e.block.value[i].vouts[j].amount
    && r.height == e.height
    && r.chain == BTC
  }

  /**
   * In every run, a record is emitted if and only if some loaded attempt holds an output with a nonempty address that
   * decodes and is registered at that moment, and it has that output's transaction, address and amount, the address's
   * user, and the attempt's height.
   */
  lemma {:induction false} RecordsInWords(start: nat, polls: seq<Poll>, decodes: Address -> bool, r: DepositRecord)
    ensures var s := Run(start, polls, decodes);
            r in s.outbox <==> exists k, i, j :: 0 <= k < |s.attempts| && RecordOf(s.attempts[k], i, j, decodes, r)
  {
    hide Run, AllFound, VoutDeposits, BtcDeposits;
    var s := Run(start, polls, decodes);
    EveryHeightOnce(start, polls, decodes);
    if r in s.outbox {
      var k := FoundFrom(s.attempts, decodes, r);
      var e := s.attempts[k];
      var i, j := BtcDepositFrom(e.block.value, e.height, e.registry, decodes, r);
      assert RecordOf(s.attempts[k], i, j, decodes, r);
    }
    if k, i, j :| 0 <= k < |s.attempts| && RecordOf(s.attempts[k], i, j, decodes, r) {
      var e := s.attempts[k];
      BtcDepositListed(e.block.value, e.height, e.registry, decodes, i, j, r);
      FoundListed(s.attempts, decodes, k, r);
    }
  }

  // ---- Blocks that are replaced ----

  ghost predicate Carries(block: BtcBlock, t: TxHash) {
    exists i :: 0 <= i < |block| && block[i].txid == t
  }

  /** The node shows the transaction in no block but b at height h. */
  ghost predicate OnlyAt(v: PollView, t: TxHash, h: nat, b: BtcBlock) {
    forall g: nat :: v.Load(g).Some? && (g != h || v.Load(g).value != b) ==> !Carries(v.Load(g).value, t)
  }

  ghost predicate AlwaysOnlyAt(polls: seq<Poll>, t: TxHash, h: nat, b: BtcBlock) {
    forall i :: 0 <= i < |polls| ==> OnlyAt(polls[i].view, t, h, b)
  }

  /** What the attempts have to go by: the transaction in no other block, and the address in every registry. */
  ghost predicate AttemptsSee(attempts: seq<Attempt>, t: TxHash, h: nat, b: BtcBlock, a: Address) {
    forall k :: 0 <= k < |attempts| ==>
      && a in attempts[k].registry
      && (attempts[k].block.Some? && (attempts[k].height != h || attempts[k].block.value != b) ==>
          !Carries(attempts[k].block.value, t))
  }

  lemma {:induction false} ScanFromSees(s: State, g: nat, tip: nat, v: PollView, registry: Registry,
                                        decodes: Address -> bool, t: TxHash, h: nat, b: BtcBlock, a: Address)
    requires AttemptsSee(s.attempts, t, h, b, a) && OnlyAt(v, t, h, b) && a in registry
    ensures AttemptsSee(ScanFrom(s, g, tip, v, registry, decodes).attempts, t, h, b, a)
    decreases tip + 1 - g
  {
    hide Carries, Found;
    if g <= tip {
      var s' := Process(s, g, v, registry, decodes);
      assert forall k :: 0 <= k < |s.attempts| ==> s'.attempts[k] == s.attempts[k];
      ScanFromSees(s', g + 1, tip, v, registry, decodes, t, h, b, a);
    }
  }

  lemma {:induction false} NoAttempts(t: TxHash, h: nat, b: BtcBlock, a: Address)
    ensures AttemptsSee([], t, h, b, a)
  {
  }

  lemma {:induction false} RunSees(start: nat, polls: seq<Poll>, decodes: Address -> bool, t: TxHash, h: nat,
                                   b: BtcBlock, a: Address)
    requires AlwaysOnlyAt(polls, t, h, b) && forall i :: 0 <= i < |polls| ==> a in polls[i].registry
    ensures AttemptsSee(Run(start, polls, decodes).attempts, t, h, b, a)
  {
    hide AttemptsSee, OnlyAt, ScanFrom;
    if polls == [] {
      NoAttempts(t, h, b, a);
    } else {
      var n := |polls| - 1;
      var s, v := Run(start, polls[..n], decodes), polls[n].view;
      RunSees(start, polls[..n], decodes, t, h, b, a);
      if v.tip.Some? && v.tip.value > s.lastHeight {
        ScanFromSees(s, s.lastHeight + 1, v.tip.value, v, polls[n].registry, decodes, t, h, b, a);
      }
    }
  }

  /** A record stems from an attempt whose block carries its transaction. */
  lemma {:induction false} AttemptOf(attempts: seq<Attempt>, decodes: Address -> bool, r: DepositRecord)
    returns (k: nat)
    requires r in AllFound(attempts, decodes)
    ensures k < |attempts| && attempts[k].block.Some? && Carries(attempts[k].block.value, r.txId)
  {
    hide AllFound, VoutDeposits;
    k := FoundFrom(attempts, decodes, r);
    var e := attempts[k];
    var i, j := BtcDepositFrom(e.block.value, e.height, e.registry, decodes, r);
    assert e.block.value[i].txid == r.txId;
  }

  lemma {:induction false} PaymentFound(attempts: seq<Attempt>, decodes: Address -> bool, k: nat, i: nat, j: nat)
    requires k < |attempts| && attempts[k].block.Some?
    requires i < |attempts[k].block.value| && j < |attempts[k].block.value[i].vouts|
    requires var v := attempts[k].block.value[i].vouts[j];
             v.address != "" && decodes(v.address) && v.address in attempts[k].registry
    ensures HasTx(AllFound(attempts, decodes), attempts[k].block.value[i].txid)
  {
    hide AllFound, BtcDeposits;
    var e := attempts[k];
    var b := e.block.value;
    var r := VoutDeposit(b[i].txid, b[i].vouts[j], e.height, e.registry, decodes)[0];
    BtcDepositListed(b, e.height, e.registry, decodes, i, j, r);
    FoundListed(attempts, decodes, k, r);
    var all := AllFound(attempts, decodes);
    var x :| 0 <= x < |all| && all[x] == r;
  }

  /**
   * Which payments of a block are recorded. Once the cursor is at or above height h, for good and whatever the node
   * does later: a payment in a block b at height h to an address that decodes and is registered throughout, shown by
   * the node in no other block, is in a record if and only if b is what the one attempt on h had loaded. A block that
   * a reorganisation puts there afterwards is never scanned.
   */
  lemma {:induction false} RecordedExactly(start: nat, polls: seq<Poll>, n: nat, decodes: Address -> bool, h: nat,
                                           b: BtcBlock, i: nat, j: nat)
    requires n <= |polls| && start < h <= Run(start, polls[..n], decodes).lastHeight
    requires i < |b| && j < |b[i].vouts| && b[i].vouts[j].address != "" && decodes(b[i].vouts[j].address)
    requires AlwaysOnlyAt(polls, b[i].txid, h, b)
    requires forall k :: 0 <= k < |polls| ==> b[i].vouts[j].address in polls[k].registry
    ensures |Run(start, polls[..n], decodes).attempts| >= h - start
    ensures HasTx(Run(start, polls, decodes).outbox, b[i].txid) <==>
            Run(start, polls[..n], decodes).attempts[h - start - 1].block == Some(b)
  {
    hide AllFound, Run, OnlyAt, Carries;
    var before, s := Run(start, polls[..n], decodes), Run(start, polls, decodes);
    EveryHeightOnce(start, polls[..n], decodes);
    EveryHeightOnce(start, polls, decodes);
    AttemptsStay(start, polls, n, decodes);
    var a := h - start - 1;
    assert s.attempts[a] == before.attempts[a];
    RunSees(start, polls, decodes, b[i].txid, h, b, b[i].vouts[j].address);
    if HasTx(s.outbox, b[i].txid) {
      var x :| 0 <= x < |s.outbox| && s.outbox[x].txId == b[i].txid;
      var k := AttemptOf(s.attempts, decodes, s.outbox[x]);
      assert s.attempts[k].height == h;
    }
    if s.attempts[a].block == Some(b) {
      PaymentFound(s.attempts, decodes, a, i, j);
    }
  }

  // ---- It happens ----

  /** A node at a tip of 1 with an empty block 1. */
  function OldView(): PollView {
    PollView(Some(1), (h: nat) => Some("old"), (x: BlockHash) => Some([]))
  }

  /** The node after the reorganisation: another block 1, and an empty block 2. */
  function NewView(paid: BtcBlock): PollView {
    PollView(Some(2), (h: nat) => Some(if h == 1 then "paid" else "next"),
             (x: BlockHash) => Some(if x == "paid" then paid else []))
  }

  lemma {:induction false} TwoPolls(t: TxHash, payee: Address, amount: nat, registry: Registry,
                                    decodes: Address -> bool)
    ensures var paid := [BtcTx(t, [Vout(payee, amount)])];
            var s := Run(0, [Poll(OldView(), registry), Poll(NewView(paid), registry)], decodes);
            s.lastHeight == 2 && s.attempts == [Attempt(1, Some([]), registry), Attempt(2, Some([]), registry)]
  {
    var paid := [BtcTx(t, [Vout(payee, amount)])];
    var polls := [Poll(OldView(), registry), Poll(NewView(paid), registry)];
    assert polls[..1][..0] == [] && polls[..|polls| - 1] == polls[..1];
    var s0 := Run(0, [], decodes);
    var s1 := Process(s0, 1, OldView(), registry, decodes);
    assert Run(0, polls[..1], decodes) == ScanFrom(s1, 2, 1, OldView(), registry, decodes) == s1.(lastHeight := 1);
    var s2 := Process(s1.(lastHeight := 1), 2, NewView(paid), registry, decodes);
    assert Run(0, polls, decodes) == ScanFrom(s2, 3, 2, NewView(paid), registry, decodes) == s2.(lastHeight := 2);
  }

  lemma {:induction false} PaidOnce(t: TxHash, payee: Address, amount: nat, registry: Registry,
                                    decodes: Address -> bool)
    requires payee != "" && decodes(payee) && payee in registry
    ensures var paid := [BtcTx(t, [Vout(payee, amount)])];
            && BtcDeposits(paid, 1, registry, decodes) != []
            && OnlyAt(OldView(), t, 1, paid) && OnlyAt(NewView(paid), t, 1, paid)
  {
    var paid := [BtcTx(t, [Vout(payee, amount)])];
    var r := VoutDeposit(t, paid[0].vouts[0], 1, registry, decodes)[0];
    BtcDepositListed(paid, 1, registry, decodes, 0, 0, r);
  }

  /**
   * A one-block reorganisation, two failure-free polls: the block 1 that pays a user is never scanned, and as long as
   * the node shows the payment in no other block, it is in no record then or ever.
   */
  lemma {:induction false} ReorgLosesADeposit(t: TxHash, payee: Address, amount: nat, user: UserId,
                                              decodes: Address -> bool, later: seq<Poll>)
    requires payee != "" && decodes(payee)
    requires AlwaysOnlyAt(later, t, 1, [BtcTx(t, [Vout(payee, amount)])])
    requires forall k :: 0 <= k < |later| ==> payee in later[k].registry
    ensures var paid, registry := [BtcTx(t, [Vout(payee, amount)])], map[payee := user];
            var polls := [Poll(OldView(), registry), Poll(NewView(paid), registry)];
            && Run(0, polls, decodes).lastHeight == 2
            && BtcDeposits(paid, 1, registry, decodes) != []
            && !HasTx(Run(0, polls + later, decodes).outbox, t)
  {
    var paid, registry := [BtcTx(t, [Vout(payee, amount)])], map[payee := user];
    var polls := [Poll(OldView(), registry), Poll(NewView(paid), registry)];
    TwoPolls(t, payee, amount, registry, decodes);
    PaidOnce(t, payee, amount, registry, decodes);
    var all := polls + later;
    assert all[..2] == polls;
    assert AlwaysOnlyAt(all, t, 1, paid);
    RecordedExactly(0, all, 2, decodes, 1, paid, 0, 0);
  }
}

/** What a reorganisation costs the Ethereum watcher: which blocks it never scans, and which records never come. */
module EthReorgs {
  import opened Basics
  import opened Deposits
  import opened EthWatching

  // ---- Records and scanned blocks ----

  /** The deposits of the accepted blocks, in order. */
  function AllDeposits(history: seq<Move>): seq<DepositRecord> {
    if history == [] then []
    else
      var m := history[|history| - 1];
      AllDeposits(history[..|history| - 1]) +
      if m.Accepted? then EthDeposits(m.block.txs, m.block.Number(), m.registry) else []
  }

  lemma {:induction false} NoDeposits()
    ensures AllDeposits([]) == []
  {
  }

  lemma {:induction false} AllDepositsSnoc(history: seq<Move>, m: Move)
    ensures AllDeposits(history + [m]) ==
            AllDeposits(history) + if m.Accepted? then EthDeposits(m.block.txs, m.block.Number(), m.registry) else []
  {
    assert (history + [m])[..|history|] == history;
  }

  lemma {:induction false} ScanFromRecords(s: State, h: nat, tip: nat, v: PollView, registry: Registry)
    requires h > 0 && Honest(v) && s.outbox == AllDeposits(s.history)
    ensures var t := ScanFrom(s, h, tip, v, registry); t.outbox == AllDeposits(t.history)
    ensures s.outbox <= ScanFrom(s, h, tip, v, registry).outbox
    decreases tip + 1 - h
  {
    hide AllDeposits, EthDeposits;
    if h <= tip && v.fetch(h).Some? {
      var (s', ok) := Process(s, h, v, registry);
      if s'.history != s.history {
        AllDepositsSnoc(s.history, s'.history[|s.history|]);
      }
      if ok {
        ScanFromRecords(s', h + 1, tip, v, registry);
      }
    }
  }

  /**
   * In every run the records are exactly the deposits of the accepted blocks, in order, and no record is taken back.
   */
  lemma {:induction false} RunRecords(s: State, polls: seq<Poll>)
    requires AllHonest(polls) && s.outbox == AllDeposits(s.history)
    ensures var t := Run(s, polls); t.outbox == AllDeposits(t.history) && s.outbox <= t.outbox
  {
    hide AllDeposits;
    if polls != [] {
      var n := |polls| - 1;
      RunRecords(s, polls[..n]);
      var t, v := Run(s, polls[..n]), polls[n].view;
      if v.tip.Some? && v.tip.value > t.lastHeight {
        ScanFromRecords(t, t.lastHeight + 1, v.tip.value, v, polls[n].registry);
      }
    }
  }

  /** The record of transaction k of an accepted block: whom it credits with what, field by field. */
  ghost predicate RecordOf(m: Move, k: int, r: DepositRecord) {
    && m.Accepted? && 0 <= k < |m.block.txs|
    && m.block.txs[k].to.Some? && m.block.txs[k].to.value in m.registry
    && r.txId == m.block.txs[k].hash
    && r.address == m.block.txs[k].to.value
    && r.userId == m.registry[m.block.txs[k].to.value]
    && r.amount == m.block.txs[k].value
    && r.height == m.block.Number()
    && r.chain == ETH
  }

  lemma {:induction false} RecordSource(history: seq<Move>, r: DepositRecord) returns (i: nat, k: nat)
    requires r in AllDeposits(history)
    ensures i < |history| && RecordOf(history[i], k, r)
  {
    hide EthDeposits;
    var n := |history| - 1;
    if r in AllDeposits(history[..n]) {
      i, k := RecordSource(history[..n], r);
    } else {
      i := n;
      k := DepositFrom(history[n].block.txs, history[n].block.Number(), history[n].registry, r);
    }
  }

  /** The deposits of an accepted block are among the records. */
  lemma {:induction false} RecordListed(history: seq<Move>, i: nat, r: DepositRecord)
    requires i < |history| && history[i].Accepted?
    requires r in EthDeposits(history[i].block.txs, history[i].block.Number(), history[i].registry)
    ensures r in AllDeposits(history)
  {
    hide EthDeposits;
    var n := |history| - 1;
    if i < n {
      RecordListed(history[..n], i, r);
    }
  }

  /**
   * In every run, a record is emitted if and only if some accepted block holds a transaction to an address registered
   * at that moment, and it has that transaction's hash, recipient and value, the recipient's user, and the block's
   * number.
   */
  lemma {:induction false} RecordsInWords(start: EthBlock, polls: seq<Poll>, r: DepositRecord)
    requires AllHonest(polls)
    ensures var s := Run(Start(start), polls);
            r in s.outbox <==> exists i, k :: 0 <= i < |s.history| && RecordOf(s.history[i], k, r)
  {
    hide AllDeposits, Run, AllHonest;
    var s := Run(Start(start), polls);
    NoDeposits();
    RunRecords(Start(start), polls);
    if r in s.outbox {
      var i, k := RecordSource(s.history, r);
    }
    if i, k :| 0 <= i < |s.history| && RecordOf(s.history[i], k, r) {
      var m := s.history[i];
      DepositListed(m.block.txs, m.block.Number(), m.registry, k, r);
      RecordListed(s.history, i, r);
    }
  }

  ghost predicate WasScanned(history: seq<Move>, b: EthBlock) {
    exists i :: 0 <= i < |history| && history[i].Accepted? && history[i].block == b
  }

  /** Whatever the node does later, a block at or below the height cursor that was not scanned never will be. */
  lemma {:induction false} NeverScannedLater(start: EthBlock, polls: seq<Poll>, more: seq<Poll>, b: EthBlock)
    requires AllHonest(polls) && AllHonest(more)
    requires var s := Run(Start(start), polls); b.Number() <= s.lastHeight && !WasScanned(s.history, b)
    ensures !WasScanned(Run(Run(Start(start), polls), more).history, b)
  {
    var s := Run(Start(start), polls);
    RunKeeps(start, Start(start), polls);
    RunKeeps(start, s, more);
    var after := Run(s, more).history;
    forall i | 0 <= i < |after| && after[i].Accepted?
      ensures after[i].block != b
    {
      assert i < |s.history| ==> s.history[i] == after[i];
    }
  }

  // ---- The line of the cursor ----

  /** p is b or one of its ancestors. */
  ghost predicate OnLine(p: EthBlock, b: EthBlock) {
    p == b || (b.Child? && OnLine(p, b.parent))
  }

  /** All blocks of the line of b above the start were scanned. */
  ghost predicate LineScanned(start: nat, history: seq<Move>, b: EthBlock) {
    b.Number() <= start || (WasScanned(history, b) && LineScanned(start, history, b.parent))
  }

  /** Move i is a rollback to a block of the line of b above the start that had not been scanned. */
  ghost predicate Skips(start: nat, history: seq<Move>, b: EthBlock, i: nat)
    requires i < |history|
  {
    && history[i].Realigned?
    && OnLine(history[i].block, b)
    && history[i].block.Number() > start
    && !WasScanned(history[..i], history[i].block)
  }

  /** Rollback targets lie at or below the height cursor, and blocks accepted later lie above them. */
  ghost predicate TargetsBelow(s: State) {
    && (forall i :: 0 <= i < |s.history| && s.history[i].Realigned? ==> s.history[i].block.Number() <= s.lastHeight)
    && (forall i, j :: 0 <= i < j < |s.history| && s.history[i].Realigned? && s.history[j].Accepted? ==>
          s.history[i].block.Number() < s.history[j].block.Number())
  }

  lemma {:induction false} ScanFromTargets(s: State, h: nat, tip: nat, v: PollView, registry: Registry)
    requires Honest(v) && TargetsBelow(s) && s.lastHeight < h <= tip + 1
    ensures TargetsBelow(ScanFrom(s, h, tip, v, registry))
    decreases tip + 1 - h
  {
    hide EthDeposits;
    if h <= tip && v.fetch(h).Some? {
      var (s', ok) := Process(s, h, v, registry);
      assert forall i :: 0 <= i < |s.history| ==> s'.history[i] == s.history[i];
      assert TargetsBelow(s');
      if ok {
        ScanFromTargets(s', h + 1, tip, v, registry);
      }
    }
  }

  lemma {:induction false} RunTargets(start: EthBlock, polls: seq<Poll>)
    requires AllHonest(polls)
    ensures TargetsBelow(Run(Start(start), polls))
  {
    if polls != [] {
      var n := |polls| - 1;
      RunTargets(start, polls[..n]);
      var s, v := Run(Start(start), polls[..n]), polls[n].view;
      if v.tip.Some? && v.tip.value > s.lastHeight {
        ScanFromTargets(s, s.lastHeight + 1, v.tip.value, v, polls[n].registry);
      }
    }
  }

  lemma {:induction false} LineNumbers(p: EthBlock, b: EthBlock)
    requires OnLine(p, b)
    ensures p.Number() <= b.Number()
    decreases b
  {
    if p != b {
      LineNumbers(p, b.parent);
    }
  }

  lemma {:induction false} LineBelow(start: nat, history: seq<Move>, b: EthBlock, p: EthBlock)
    requires LineScanned(start, history, b) && OnLine(p, b) && p.Number() > start
    ensures WasScanned(history, p)
    decreases b
  {
    LineNumbers(p, b);
    if p != b {
      LineBelow(start, history, b.parent, p);
    }
  }

  lemma {:induction false} LineOfParent(p: EthBlock, b: EthBlock)
    requires OnLine(p, b) && p.Child?
    ensures OnLine(p.parent, b)
    decreases b
  {
    if p != b {
      LineOfParent(p, b.parent);
    }
  }

  /** Where no rollback skips, every block that the cursor held on the line has its own line scanned. */
  lemma {:induction false} HeldBlocksScanned(start: EthBlock, s: State, b: EthBlock, i: nat)
    requires Inv(start, s) && i <= |s.history| && OnLine(CursorBlock(start, s.history, i), b)
    requires forall j :: 0 <= j < |s.history| ==> !Skips(start.Number(), s.history, b, j)
    ensures LineScanned(start.Number(), s.history, CursorBlock(start, s.history, i))
    decreases i, 0
  {
    var c := CursorBlock(start, s.history, i);
    if c.Number() > start.Number() {
      if s.history[i - 1].Accepted? {
        AcceptedHeld(start, s, b, i - 1, c);
      } else {
        assert !Skips(start.Number(), s.history, b, i - 1);
        var j :| 0 <= j < i - 1 && s.history[..i - 1][j].Accepted? && s.history[..i - 1][j].block == c;
        AcceptedHeld(start, s, b, j, c);
      }
    }
  }

  lemma {:induction false} AcceptedHeld(start: EthBlock, s: State, b: EthBlock, j: nat, c: EthBlock)
    requires Inv(start, s) && j < |s.history| && s.history[j].Accepted? && s.history[j].block == c
    requires OnLine(c, b) && c.Number() > start.Number()
    requires forall k :: 0 <= k < |s.history| ==> !Skips(start.Number(), s.history, b, k)
    ensures LineScanned(start.Number(), s.history, c)
    decreases j, 1
  {
    assert c.ParentHash() == Some(CursorBlock(start, s.history, j));
    LineOfParent(c, b);
    HeldBlocksScanned(start, s, b, j);
    assert WasScanned(s.history, c);
  }

  /** A rollback target whose block is scanned at any time was scanned before the rollback. */
  lemma {:induction false} ScannedBefore(start: EthBlock, s: State, b: EthBlock, i: nat)
    requires TargetsBelow(s) && LineScanned(start.Number(), s.history, b)
    requires i < |s.history| && s.history[i].Realigned? && OnLine(s.history[i].block, b)
    requires s.history[i].block.Number() > start.Number()
    ensures WasScanned(s.history[..i], s.history[i].block)
  {
    var p := s.history[i].block;
    LineBelow(start.Number(), s.history, b, p);
    var j :| 0 <= j < |s.history| && s.history[j].Accepted? && s.history[j].block == p;
    assert s.history[..i][j] == s.history[j];
  }

  /**
   * The chain that the cursor stands on was scanned without a hole exactly when no rollback went to a block of it,
   * above the start, that had not been scanned before: the hash of such a block is taken over, and the block is
   * skipped.
   */
  lemma {:induction false} ScannedExactly(start: EthBlock, polls: seq<Poll>)
    requires AllHonest(polls)
    ensures var history := Run(Start(start), polls).history;
            var b := CursorBlock(start, history, |history|);
            LineScanned(start.Number(), history, b) <==>
            forall i :: 0 <= i < |history| ==> !Skips(start.Number(), history, b, i)
  {
    hide Descends;
    var s := Run(Start(start), polls);
    var b := CursorBlock(start, s.history, |s.history|);
    RunKeeps(start, Start(start), polls);
    RunTargets(start, polls);
    if forall i :: 0 <= i < |s.history| ==> !Skips(start.Number(), s.history, b, i) {
      HeldBlocksScanned(start, s, b, |s.history|);
    }
    if LineScanned(start.Number(), s.history, b) {
      forall i | 0 <= i < |s.history|
        ensures !Skips(start.Number(), s.history, b, i)
      {
        if Skips(start.Number(), s.history, b, i) {
          ScannedBefore(start, s, b, i);
          assert false;
        }
      }
    }
  }

  // ---- The records that never come ----

  ghost predicate Carries(b: EthBlock, t: TxHash) {
    exists i :: 0 <= i < |b.txs| && b.txs[i].hash == t
  }

  /** The node answers no scan with a block other than b that carries the transaction. */
  ghost predicate OnlyIn(v: PollView, t: TxHash, b: EthBlock) {
    forall h :: v.fetch(h).Some? && v.fetch(h).value != b ==> !Carries(v.fetch(h).value, t)
  }

  ghost predicate AlwaysOnlyIn(polls: seq<Poll>, t: TxHash, b: EthBlock) {
    forall i :: 0 <= i < |polls| ==> OnlyIn(polls[i].view, t, b)
  }

  ghost predicate AcceptedOnlyIn(history: seq<Move>, t: TxHash, b: EthBlock) {
    forall i :: 0 <= i < |history| && history[i].Accepted? && history[i].block != b ==> !Carries(history[i].block, t)
  }

  lemma {:induction false} ScanFromOnlyIn(s: State, h: nat, tip: nat, v: PollView, registry: Registry, t: TxHash,
                                          b: EthBlock)
    requires h > 0 && OnlyIn(v, t, b) && AcceptedOnlyIn(s.history, t, b)
    ensures AcceptedOnlyIn(ScanFrom(s, h, tip, v, registry).history, t, b)
    decreases tip + 1 - h
  {
    hide Carries, EthDeposits;
    if h <= tip && v.fetch(h).Some? {
      var (s', ok) := Process(s, h, v, registry);
      assert forall i :: 0 <= i < |s.history| ==> s'.history[i] == s.history[i];
      if ok {
        ScanFromOnlyIn(s', h + 1, tip, v, registry, t, b);
      }
    }
  }

  lemma {:induction false} RunOnlyIn(s: State, polls: seq<Poll>, t: TxHash, b: EthBlock)
    requires AlwaysOnlyIn(polls, t, b) && AcceptedOnlyIn(s.history, t, b)
    ensures AcceptedOnlyIn(Run(s, polls).history, t, b)
  {
    hide AcceptedOnlyIn, OnlyIn;
    if polls != [] {
      var n := |polls| - 1;
      RunOnlyIn(s, polls[..n], t, b);
      var r, v := Run(s, polls[..n]), polls[n].view;
      if v.tip.Some? && v.tip.value > r.lastHeight {
        ScanFromOnlyIn(r, r.lastHeight + 1, v.tip.value, v, polls[n].registry, t, b);
      }
    }
  }

  lemma {:induction false} RecordFrom(history: seq<Move>, r: DepositRecord) returns (i: nat)
    requires r in AllDeposits(history)
    ensures i < |history| && history[i].Accepted? && Carries(history[i].block, r.txId)
  {
    var n := |history| - 1;
    if r in AllDeposits(history[..n]) {
      i := RecordFrom(history[..n], r);
    } else {
      i := n;
      var b := history[n].block;
      var j := DepositFrom(b.txs, b.Number(), history[n].registry, r);
      assert b.txs[j].hash == r.txId;
    }
  }

  /**
   * A deposit is lost for good: when a block at or below the height cursor was not scanned, a transaction that the node
   * shows in no other block is in no record, then or after any further polls.
   */
  lemma {:induction false} NeverRecorded(start: EthBlock, polls: seq<Poll>, more: seq<Poll>, b: EthBlock, t: TxHash)
    requires AllHonest(polls) && AllHonest(more) && AlwaysOnlyIn(polls, t, b) && AlwaysOnlyIn(more, t, b)
    requires var s := Run(Start(start), polls); b.Number() <= s.lastHeight && !WasScanned(s.history, b)
    ensures !HasTx(Run(Run(Start(start), polls), more).outbox, t)
  {
    hide AllDeposits, Carries, Run, OnlyIn, AllHonest;
    var s := Run(Start(start), polls);
    var last := Run(s, more);
    NoDeposits();
    RunRecords(Start(start), polls);
    RunRecords(s, more);
    RunOnlyIn(Start(start), polls, t, b);
    RunOnlyIn(s, more, t, b);
    NeverScannedLater(start, polls, more, b);
    forall i | 0 <= i < |last.outbox|
      ensures last.outbox[i].txId != t
    {
      var k := RecordFrom(last.history, last.outbox[i]);
      assert last.history[k].block != b;
    }
  }

  ghost predicate AcceptedKnowing(history: seq<Move>, a: Address) {
    forall i :: 0 <= i < |history| && history[i].Accepted? ==> a in history[i].registry
  }

  lemma {:induction false} ScanFromKnowing(s: State, h: nat, tip: nat, v: PollView, registry: Registry, a: Address)
    requires h > 0 && a in registry && AcceptedKnowing(s.history, a)
    ensures AcceptedKnowing(ScanFrom(s, h, tip, v, registry).history, a)
    decreases tip + 1 - h
  {
    hide EthDeposits;
    if h <= tip && v.fetch(h).Some? {
      var (s', ok) := Process(s, h, v, registry);
      if ok {
        ScanFromKnowing(s', h + 1, tip, v, registry, a);
      }
    }
  }

  lemma {:induction false} RunKnowing(s: State, polls: seq<Poll>, a: Address)
    requires AcceptedKnowing(s.history, a) && forall i :: 0 <= i < |polls| ==> a in polls[i].registry
    ensures AcceptedKnowing(Run(s, polls).history, a)
  {
    if polls != [] {
      var n := |polls| - 1;
      RunKnowing(s, polls[..n], a);
      var r, v := Run(s, polls[..n]), polls[n].view;
      if v.tip.Some? && v.tip.value > r.lastHeight {
        ScanFromKnowing(r, r.lastHeight + 1, v.tip.value, v, polls[n].registry, a);
      }
    }
  }

  /**
   * In every run a payment to an address that is registered throughout, shown by the node in no other block, is
   * recorded if and only if its block was scanned.
   */
  lemma {:induction false} RecordedExactly(start: EthBlock, polls: seq<Poll>, b: EthBlock, j: nat)
    requires AllHonest(polls) && j < |b.txs| && b.txs[j].to.Some? && AlwaysOnlyIn(polls, b.txs[j].hash, b)
    requires forall i :: 0 <= i < |polls| ==> b.txs[j].to.value in polls[i].registry
    ensures var s := Run(Start(start), polls); HasTx(s.outbox, b.txs[j].hash) <==> WasScanned(s.history, b)
  {
    hide AllDeposits, Carries, Run, OnlyIn, AllHonest;
    var s, t := Run(Start(start), polls), b.txs[j].hash;
    NoDeposits();
    RunRecords(Start(start), polls);
    if HasTx(s.outbox, t) {
      var k :| 0 <= k < |s.outbox| && s.outbox[k].txId == t;
      var i := RecordFrom(s.history, s.outbox[k]);
      RunOnlyIn(Start(start), polls, t, b);
      assert s.history[i].block == b;
    }
    if WasScanned(s.history, b) {
      var i :| 0 <= i < |s.history| && s.history[i].Accepted? && s.history[i].block == b;
      RunKnowing(Start(start), polls, b.txs[j].to.value);
      var r := EthDeposit(b.txs[j], b.Number(), s.history[i].registry)[0];
      DepositListed(b.txs, b.Number(), s.history[i].registry, j, r);
      RecordListed(s.history, i, r);
      var k :| 0 <= k < |s.outbox| && s.outbox[k] == r;
    }
  }

  // ---- The rollback misses the block it rolls back to ----

  function Ancestor(b: EthBlock, h: nat): (r: EthBlock)
    requires h <= b.Number()
    ensures r.Number() == h
  {
    if b.Number() == h then b else Ancestor(b.parent, h)
  }

  /** A poll of a node that stands on the line of the given head and never fails. */
  function LineView(head: EthBlock): PollView {
    var f := (h: nat) => if h <= head.Number() then Some(Ancestor(head, h)) else None;
    PollView(Some(head.Number()), f, f)
  }

  /** Two polls of an empty block 1, then of a block 1 with the transaction and block 2 on it, and one more. */
  function ReorgPolls(tx: EthTx, registry: Registry): seq<Poll> {
    var genesis := Genesis([]);
    var p := Poll(LineView(Child(Child(genesis, [tx]), [])), registry);
    [Poll(LineView(Child(genesis, [])), registry), p, p]
  }

  lemma {:induction false} ThreePolls(s: State, a: Poll, b: Poll, c: Poll)
    ensures Run(s, [a, b, c]) == Scan(Scan(Scan(s, a.view, a.registry), b.view, b.registry), c.view, c.registry)
  {
    hide Scan;
    var polls := [a, b, c];
    assert polls[..2][..1] == polls[..1] && polls[..1][..0] == [] && polls[..|polls| - 1] == polls[..2];
    assert Run(s, polls[..1]) == Scan(s, a.view, a.registry);
    assert Run(s, polls[..2]) == Scan(Run(s, polls[..1]), b.view, b.registry);
  }

  /** The ancestor at a height is the block itself or that of its parent. */
  lemma {:induction false} AncestorStep(b: EthBlock, h: nat)
    requires h <= b.Number()
    ensures h == b.Number() ==> Ancestor(b, h) == b
    ensures h < b.Number() ==> Ancestor(b, h) == Ancestor(b.parent, h)
  {
  }

  lemma {:induction false} LinesShowOnce(replaced: EthBlock, head: EthBlock, tx: EthTx)
    requires replaced == Child(Genesis([]), []) && head == Child(Child(Genesis([]), [tx]), [])
    ensures OnlyIn(LineView(replaced), tx.hash, head.parent) && OnlyIn(LineView(head), tx.hash, head.parent)
  {
    hide Ancestor;
    var genesis, paid, t := Genesis([]), head.parent, tx.hash;
    assert genesis.Number() == 0 && paid.Number() == 1 && replaced.Number() == 1 && head.Number() == 2;
    forall h: nat | h <= 2
      ensures Ancestor(head, h) == paid || !Carries(Ancestor(head, h), t)
    {
      AncestorStep(head, h);
      if h < 2 {
        AncestorStep(paid, h);
        if h < 1 {
          AncestorStep(genesis, h);
        }
      }
    }
    forall h: nat | h <= 1
      ensures !Carries(Ancestor(replaced, h), t)
    {
      AncestorStep(replaced, h);
      if h < 1 {
        AncestorStep(genesis, h);
      }
    }
  }

  lemma {:induction false} ReorgSkipsABlock(tx: EthTx, registry: Registry)
    ensures var genesis := Genesis([]);
            var replaced, paid := Child(genesis, []), Child(genesis, [tx]);
            var head := Child(paid, []);
            Run(Start(genesis), ReorgPolls(tx, registry)) ==
            State(2, Some(head), [Accepted(replaced, registry), Realigned(paid), Accepted(head, registry)], [])
  {
    var genesis := Genesis([]);
    var replaced, paid := Child(genesis, []), Child(genesis, [tx]);
    var head := Child(paid, []);
    var v, w := LineView(replaced), LineView(head);
    var s0 := Start(genesis);
    assert Ancestor(head, 1) == paid && Ancestor(head, 2) == head && Ancestor(replaced, 1) == replaced;
    var s1 := Process(s0, 1, v, registry).0;
    assert s1 == State(0, Some(replaced), [Accepted(replaced, registry)], []);
    assert Scan(s0, v, registry) == ScanFrom(s1, 2, 1, v, registry) == s1.(lastHeight := 1);
    var s2 := Scan(s1.(lastHeight := 1), w, registry);
    assert s2 == State(1, Some(paid), [Accepted(replaced, registry), Realigned(paid)], []);
    var s3 := Process(s2, 2, w, registry).0;
    assert Scan(s2, w, registry) == ScanFrom(s3, 3, 2, w, registry) == s3.(lastHeight := 2);
    ThreePolls(s0, Poll(v, registry), Poll(w, registry), Poll(w, registry));
  }

  /**
   * A one-block reorganisation. The service has scanned an empty block 1; the node replaces it by a block 1 with a
   * deposit and adds block 2. Two failure-free polls reach block 2 and block 1 is never scanned: as long as the node
   * does not show the transaction in another block, it is in no record then or ever.
   */
  lemma {:induction false} ReorgLosesADeposit(tx: EthTx, user: UserId, later: seq<Poll>)
    requires tx.to.Some? && AllHonest(later) && AlwaysOnlyIn(later, tx.hash, Child(Genesis([]), [tx]))
    ensures var paid := Child(Genesis([]), [tx]);
            var registry := map[tx.to.value := user];
            var polls := ReorgPolls(tx, registry);
            var s := Run(Start(Genesis([])), polls);
            && AllHonest(polls)
            && EthDeposits(paid.txs, 1, registry) != []
            && s.lastHeight == 2 && s.lastHash == Some(Child(paid, [])) && s.outbox == []
            && !WasScanned(Run(s, later).history, paid)
            && !HasTx(Run(s, later).outbox, tx.hash)
  {
    hide Run, Carries, OnlyIn;
    var genesis := Genesis([]);
    var replaced, paid := Child(genesis, []), Child(genesis, [tx]);
    var registry := map[tx.to.value := user];
    var polls := ReorgPolls(tx, registry);
    ReorgSkipsABlock(tx, registry);
    LinesShowOnce(replaced, Child(paid, []), tx);
    assert AlwaysOnlyIn(polls, tx.hash, paid);
    assert EthDeposits(paid.txs, 1, registry) == EthDeposits([], 1, registry) + EthDeposit(tx, 1, registry);
    NeverScannedLater(genesis, polls, later, paid);
    NeverRecorded(genesis, polls, later, paid, tx.hash);
  }
}

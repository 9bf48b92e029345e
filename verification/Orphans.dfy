/** Deposits of Ethereum blocks that a reorganisation has removed. */
module Orphans {
  import opened Basics
  import opened Deposits
  import Eth = EthWatching
  import Reorgs = EthReorgs
  import P = DepositPipeline
  import Confirming

  // ---- When credited blocks are orphaned ----

  /** The cursor has also held another block at the height of a scanned one, above the start. */
  ghost predicate Orphaned(start: nat, history: seq<Eth.Move>, i: nat, j: nat)
    requires i < |history| && j < |history|
  {
    && history[i].Accepted?
    && start < history[i].block.Number() == history[j].block.Number()
    && history[i].block != history[j].block
  }

  /** A scanned block is on the line of another block that the cursor has held, unless that lies below it. */
  ghost predicate OnLineOf(start: nat, history: seq<Eth.Move>, i: nat, j: nat)
    requires i < |history| && j < |history|
  {
    history[i].Accepted? && start < history[i].block.Number() <= history[j].block.Number() ==>
      Reorgs.OnLine(history[i].block, history[j].block)
  }

  lemma {:induction false} LineBelowTop(p: EthBlock, b: EthBlock)
    requires Reorgs.OnLine(p, b) && p.Number() == b.Number()
    ensures p == b
  {
    if p != b {
      Reorgs.LineNumbers(p, b.parent);
    }
  }

  /** A line has one block at a height. */
  lemma {:induction false} OneBlockPerHeight(p: EthBlock, q: EthBlock, b: EthBlock)
    requires Reorgs.OnLine(p, b) && Reorgs.OnLine(q, b) && p.Number() == q.Number()
    ensures p == q
    decreases b
  {
    if p == b {
      LineBelowTop(q, b);
    } else if q == b {
      LineBelowTop(p, b);
    } else {
      OneBlockPerHeight(p, q, b.parent);
    }
  }

  lemma {:induction false} HeldBelow(start: EthBlock, s: Eth.State, j: nat)
    requires Eth.Inv(start, s) && j < |s.history| && s.history[j].Accepted?
    requires s.history[j].block.Number() > start.Number() + 1
    ensures j > 0 && s.history[j].block.Child? && s.history[j - 1].block == s.history[j].block.parent
  {
    assert s.history[j].block.ParentHash() == Some(Eth.CursorBlock(start, s.history, j));
  }

  /** A rollback goes to a height that has been scanned. */
  lemma {:induction false} ScannedTarget(start: EthBlock, s: Eth.State, j: nat) returns (k: nat)
    requires Eth.Inv(start, s) && Reorgs.TargetsBelow(s) && j < |s.history| && s.history[j].Realigned?
    requires s.history[j].block.Number() > start.Number()
    ensures k < |s.history| && s.history[k].Accepted? && s.history[k].block.Number() == s.history[j].block.Number()
  {
    assert Eth.HeightAccepted(s.history, s.history[j].block.Number());
    k :| 0 <= k < |s.history| && s.history[k].Accepted? && s.history[k].block.Number() == s.history[j].block.Number();
  }

  /** Without an orphaned block the scanned blocks are on the lines of all blocks held above them. */
  lemma {:induction false} HeldAbove(start: EthBlock, s: Eth.State, i: nat, j: nat)
    requires Eth.Inv(start, s) && Reorgs.TargetsBelow(s) && i < |s.history| && j < |s.history|
    requires forall k, m :: 0 <= k < |s.history| && 0 <= m < |s.history| ==> !Orphaned(start.Number(), s.history, k, m)
    ensures OnLineOf(start.Number(), s.history, i, j)
    decreases s.history[j].block.Number(), if s.history[j].Accepted? then 0 else 1
  {
    hide Eth.Inv, Reorgs.TargetsBelow;
    var b, c := s.history[i].block, s.history[j].block;
    assert !Orphaned(start.Number(), s.history, i, j);
    if s.history[i].Accepted? && start.Number() < b.Number() < c.Number() {
      if s.history[j].Accepted? {
        HeldBelow(start, s, j);
        HeldAbove(start, s, i, j - 1);
      } else {
        var k := ScannedTarget(start, s, j);
        assert !Orphaned(start.Number(), s.history, k, j);
        HeldAbove(start, s, i, k);
      }
    }
  }

  lemma {:induction false} StartKept(start: EthBlock)
    ensures Eth.Inv(start, Eth.Start(start))
  {
  }

  lemma {:induction false} SameHeight(start: nat, history: seq<Eth.Move>, i: nat, j: nat)
    requires i < |history| && j < |history| && OnLineOf(start, history, i, j)
    ensures !Orphaned(start, history, i, j)
  {
    var b, c := history[i].block, history[j].block;
    if Reorgs.OnLine(b, c) && b.Number() == c.Number() {
      LineBelowTop(b, c);
    }
  }

  /**
   * In every run: no credited block is ever left, that is every scanned block stays on the line of whatever block the
   * cursor holds at its height or above, exactly if the cursor never holds another block at the height of a scanned
   * one.
   */
  lemma {:induction false} OrphanedExactly(start: EthBlock, polls: seq<Eth.Poll>)
    requires Eth.AllHonest(polls)
    ensures var history := Eth.Run(Eth.Start(start), polls).history;
            (forall i, j :: 0 <= i < |history| && 0 <= j < |history| ==> OnLineOf(start.Number(), history, i, j)) <==>
            (forall i, j :: 0 <= i < |history| && 0 <= j < |history| ==> !Orphaned(start.Number(), history, i, j))
  {
    hide Eth.Inv, Reorgs.TargetsBelow, Reorgs.OnLine;
    var s := Eth.Run(Eth.Start(start), polls);
    StartKept(start);
    Eth.RunKeeps(start, Eth.Start(start), polls);
    Reorgs.RunTargets(start, polls);
    if forall i, j :: 0 <= i < |s.history| && 0 <= j < |s.history| ==> !Orphaned(start.Number(), s.history, i, j) {
      forall i, j | 0 <= i < |s.history| && 0 <= j < |s.history|
        ensures OnLineOf(start.Number(), s.history, i, j)
      {
        HeldAbove(start, s, i, j);
      }
    }
    if forall i, j :: 0 <= i < |s.history| && 0 <= j < |s.history| ==> OnLineOf(start.Number(), s.history, i, j) {
      forall i, j | 0 <= i < |s.history| && 0 <= j < |s.history|
        ensures !Orphaned(start.Number(), s.history, i, j)
      {
        assert OnLineOf(start.Number(), s.history, i, j);
        SameHeight(start.Number(), s.history, i, j);
      }
    }
  }

  // ---- What becomes of them ----

  /** A check settles an unconfirmed row by the height it reads and the row's own, and by nothing else. */
  lemma {:induction false} ConfirmedByHeightAlone(t: Confirming.Table, job: Confirming.Job, id: nat, height: int)
    requires id in t && t[id] == Confirming.Deposit(ETH, height, false)
    ensures Confirming.CheckAtOnce(t, job)[id].confirmed <==>
            job.served(id) && Confirming.Height(job, ETH) >= height + 12
  {
  }

  lemma {:induction false} HeightOfRecord(b: EthBlock, registry: Registry, r: DepositRecord)
    requires r in EthDeposits(b.txs, b.Number(), registry)
    ensures r.height == b.Number() && r.chain == ETH
  {
    var k := DepositFrom(b.txs, b.Number(), registry, r);
  }

  /**
   * In every run, a deposit of an orphaned block that has reached the table is on no line together with the block that
   * took its place; yet the watcher keeps its record and the table its row in every continuation, and, in any table
   * that holds the row, a check confirms it exactly when the update is served and the height read is 12 above it.
   */
  lemma {:induction false} OrphanStaysAndIsConfirmed(start: EthBlock, polls: seq<Eth.Poll>, later: seq<Eth.Poll>,
                                                     i: nat, j: nat, r: DepositRecord, steps: seq<P.Step>,
                                                     more: seq<P.Step>, t: Confirming.Table, id: nat,
                                                     job: Confirming.Job)
    requires Eth.AllHonest(polls) && Eth.AllHonest(later)
    requires var history := Eth.Run(Eth.Start(start), polls).history;
             && i < |history| && j < |history| && Orphaned(start.Number(), history, i, j)
             && r in EthDeposits(history[i].block.txs, history[i].block.Number(), history[i].registry)
    requires r in P.Run(steps).rows && id in t && t[id] == Confirming.Deposit(ETH, r.height, false)
    ensures var s := Eth.Run(Eth.Start(start), polls);
            && (forall b :: !(Reorgs.OnLine(s.history[i].block, b) && Reorgs.OnLine(s.history[j].block, b)))
            && r in s.outbox && r in Eth.Run(s, later).outbox
            && r in P.Run(steps + more).rows
            && (Confirming.CheckAtOnce(t, job)[id].confirmed <==>
                  job.served(id) && Confirming.Height(job, ETH) >= s.history[i].block.Number() + 12)
  {
    hide Eth.Run, P.Run, Reorgs.AllDeposits, EthDeposits, Reorgs.OnLine, Confirming.CheckAtOnce, Eth.AllHonest;
    var s := Eth.Run(Eth.Start(start), polls);
    var b, c := s.history[i].block, s.history[j].block;
    forall d | Reorgs.OnLine(b, d) && Reorgs.OnLine(c, d)
      ensures false
    {
      OneBlockPerHeight(b, c, d);
    }
    Reorgs.NoDeposits();
    Reorgs.RunRecords(Eth.Start(start), polls);
    Reorgs.RunRecords(s, later);
    Reorgs.RecordListed(s.history, i, r);
    HeightOfRecord(b, s.history[i].registry, r);
    assert (steps + more)[..|steps|] == steps;
    P.RowsStay(steps + more, |steps|);
    ConfirmedByHeightAlone(t, job, id, r.height);
  }

  // ---- It happens ----

  /** A deposit of block 1 is scanned, and at the next poll the node stands on a chain without that block. */
  function OrphaningPolls(paid: EthBlock, head: EthBlock, registry: Registry): seq<Eth.Poll> {
    [Eth.Poll(Reorgs.LineView(paid), registry), Eth.Poll(Reorgs.LineView(head), registry)]
  }

  lemma {:induction false} ParentOfAncestor(b: EthBlock, h: nat)
    requires 0 < h <= b.Number()
    ensures Reorgs.Ancestor(b, h).ParentHash() == Some(Reorgs.Ancestor(b, h - 1))
    decreases b
  {
    if h < b.Number() {
      ParentOfAncestor(b.parent, h);
    }
  }

  lemma {:induction false} BlockOneIsScanned(tx: EthTx, registry: Registry)
    ensures var paid := Child(Genesis([]), [tx]);
            Eth.Scan(Eth.Start(Genesis([])), Reorgs.LineView(paid), registry) ==
            Eth.State(1, Some(paid), [Eth.Accepted(paid, registry)], EthDeposit(tx, 1, registry))
  {
    var genesis, paid := Genesis([]), Child(Genesis([]), [tx]);
    var v := Reorgs.LineView(paid);
    assert Reorgs.Ancestor(paid, 1) == paid;
    var s1 := Eth.Process(Eth.Start(genesis), 1, v, registry).0;
    assert EthDeposits([tx], 1, registry) == EthDeposits([], 1, registry) + EthDeposit(tx, 1, registry);
    assert s1 == Eth.State(0, Some(paid), [Eth.Accepted(paid, registry)], EthDeposit(tx, 1, registry));
    assert Eth.ScanFrom(s1, 2, 1, v, registry) == s1.(lastHeight := 1);
  }

  /** The next poll of a node that stands on another line takes over that line's block 1. */
  lemma {:induction false} BlockOneIsLeft(s: Eth.State, head: EthBlock, registry: Registry)
    requires s.lastHeight == 1 && s.lastHash.Some? && head.Number() >= 2 && s.lastHash != Some(Reorgs.Ancestor(head, 1))
    ensures var t := Eth.Scan(s, Reorgs.LineView(head), registry);
            t == Eth.State(1, Some(Reorgs.Ancestor(head, 1)), s.history + [Eth.Realigned(Reorgs.Ancestor(head, 1))],
                           s.outbox)
  {
    hide Reorgs.Ancestor, EthDeposits;
    ParentOfAncestor(head, 2);
  }

  lemma {:induction false} TheCursorMovesOn(tx: EthTx, head: EthBlock, registry: Registry)
    requires head.Number() >= 2 && Reorgs.Ancestor(head, 1) != Child(Genesis([]), [tx])
    ensures var paid, other := Child(Genesis([]), [tx]), Reorgs.Ancestor(head, 1);
            Eth.Run(Eth.Start(Genesis([])), OrphaningPolls(paid, head, registry)) ==
            Eth.State(1, Some(other), [Eth.Accepted(paid, registry), Eth.Realigned(other)], EthDeposit(tx, 1, registry))
  {
    hide Eth.Scan, Reorgs.Ancestor, Reorgs.LineView;
    var paid, s0 := Child(Genesis([]), [tx]), Eth.Start(Genesis([]));
    var polls := OrphaningPolls(paid, head, registry);
    BlockOneIsScanned(tx, registry);
    BlockOneIsLeft(Eth.Scan(s0, Reorgs.LineView(paid), registry), head, registry);
    assert polls[..1][..0] == [] && polls[..|polls| - 1] == polls[..1];
    assert Eth.Run(s0, polls[..1]) == Eth.Scan(s0, Reorgs.LineView(paid), registry);
  }

  lemma {:induction false} OneRecordIn(r: DepositRecord)
    requires r.chain == ETH
    ensures var steps := [P.Offer(r), P.Take(ETH), P.Insert(ETH, true)];
            P.Legal(steps) && P.Run(steps).rows == [r]
  {
    var steps := [P.Offer(r), P.Take(ETH), P.Insert(ETH, true)];
    assert steps[..2][..1] == steps[..1] && steps[..1][..0] == [] && steps[..|steps| - 1] == steps[..2];
    assert P.Legal([]) && P.Run([]) == P.EMPTY;
    assert P.Legal(steps[..1]) && P.Run(steps[..1]).eth == P.Lane([r], None);
    assert P.Legal(steps[..2]) && P.Run(steps[..2]).eth == P.Lane([], Some(P.InHand(r, 0)));
  }

  /**
   * Two failure-free polls orphan a deposit: block 1 pays a user and is scanned, and at the next poll the node stands
   * on a line without it. The row stays, and a check that reads the new line's height confirms it.
   */
  lemma {:induction false} ReorgOrphansADeposit(tx: EthTx, user: UserId, head: EthBlock, more: seq<P.Step>,
                                                job: Confirming.Job, id: nat)
    requires tx.to.Some? && head.Number() >= 13 && Reorgs.Ancestor(head, 1) != Child(Genesis([]), [tx])
    requires job.eth == Some(head.Number()) && job.served(id)
    ensures var paid := Child(Genesis([]), [tx]);
            var registry := map[tx.to.value := user];
            var s := Eth.Run(Eth.Start(Genesis([])), OrphaningPolls(paid, head, registry));
            var r := DepositRecord(tx.hash, tx.to.value, user, tx.value, 1, ETH);
            var steps := [P.Offer(r), P.Take(ETH), P.Insert(ETH, true)];
            && s.outbox == [r] && s.lastHash == Some(Reorgs.Ancestor(head, 1)) 
            && |s.history| == 2 && Orphaned(0, s.history, 0, 1)
            && P.Legal(steps) && P.Run(steps).rows == [r]
            && r in P.Run(steps + more).rows
            && Confirming.CheckAtOnce(map[id := Confirming.Deposit(ETH, r.height, false)], job)[id].confirmed
  {
    var registry := map[tx.to.value := user];
    var r := DepositRecord(tx.hash, tx.to.value, user, tx.value, 1, ETH);
    var steps := [P.Offer(r), P.Take(ETH), P.Insert(ETH, true)];
    TheCursorMovesOn(tx, head, registry);
    OneRecordIn(r);
    assert (steps + more)[..3] == steps;
    P.RowsStay(steps + more, 3);
    assert P.Run(steps + more).rows[0] == r;
    ConfirmedByHeightAlone(map[id := Confirming.Deposit(ETH, r.height, false)], job, id, r.height);
  }
}

/** The Bitcoin deposit watcher: every height is attempted once, and a failed attempt is not repeated. */
module BtcWatching {
  import opened Basics
  import opened Deposits

  type BlockHash = string

  /** The node's answers during one poll; None is a failed call. */
  datatype PollView = PollView(tip: Option<nat>, hashAt: nat -> Option<BlockHash>,
                               blockOf: BlockHash -> Option<BtcBlock>) {
    /** The two calls that load a block. */
    function Load(h: nat): Option<BtcBlock> {
      match hashAt(h)
      case None => None
      case Some(hash) => blockOf(hash)
    }
  }

  /** One attempt on a height, and what the node and the registry were then. */
  datatype Attempt = Attempt(height: nat, block: Option<BtcBlock>, registry: Registry)

  datatype State = State(lastHeight: nat, attempts: seq<Attempt>, outbox: seq<DepositRecord>)

  function Found(a: Attempt, decodes: Address -> bool): seq<DepositRecord> {
    if a.block.None? then [] else BtcDeposits(a.block.value, a.height, a.registry, decodes)
  }

  /** The records of a series of attempts. */
  function AllFound(attempts: seq<Attempt>, decodes: Address -> bool): seq<DepositRecord> {
    if attempts == [] then []
    else AllFound(attempts[..|attempts| - 1], decodes) + Found(attempts[|attempts| - 1], decodes)
  }

  lemma {:induction false} FoundFrom(attempts: seq<Attempt>, decodes: Address -> bool, r: DepositRecord)
    returns (k: nat)
    requires r in AllFound(attempts, decodes)
    ensures k < |attempts| && r in Found(attempts[k], decodes)
  {
    hide Found;
    var n := |attempts| - 1;
    if r in AllFound(attempts[..n], decodes) {
      k := FoundFrom(attempts[..n], decodes, r);
    } else {
      k := n;
    }
  }

  lemma {:induction false} FoundListed(attempts: seq<Attempt>, decodes: Address -> bool, k: nat, r: DepositRecord)
    requires k < |attempts| && r in Found(attempts[k], decodes)
    ensures r in AllFound(attempts, decodes)
  {
    hide Found;
    var n := |attempts| - 1;
    if k < n {
      FoundListed(attempts[..n], decodes, k, r);
    }
  }

  function Process(s: State, h: nat, v: PollView, registry: Registry, decodes: Address -> bool): State {
    var a := Attempt(h, v.Load(h), registry);
    s.(attempts := s.attempts + [a], outbox := s.outbox + Found(a, decodes))
  }

  function ScanFrom(s: State, h: nat, tip: nat, v: PollView, registry: Registry, decodes: Address -> bool): State
    decreases tip + 1 - h
  {
    if h > tip then s.(lastHeight := tip)
    else ScanFrom(Process(s, h, v, registry, decodes), h + 1, tip, v, registry, decodes)
  }

  function Scan(s: State, v: PollView, registry: Registry, decodes: Address -> bool): State {
    if v.tip.None? || v.tip.value <= s.lastHeight then s
    else ScanFrom(s, s.lastHeight + 1, v.tip.value, v, registry, decodes)
  }

  lemma {:induction false} ScanFromNext(s: State, h: nat, tip: nat, v: PollView, registry: Registry,
                                        decodes: Address -> bool)
    ensures ScanFrom(s, h, tip, v, registry, decodes) ==
            if h > tip then s.(lastHeight := tip)
            else ScanFrom(Process(s, h, v, registry, decodes), h + 1, tip, v, registry, decodes)
  {
  }

  class DepositWatcher {
    var lastHeight: nat
    /** The records offered to the deposits channel, in order. */
    var outbox: seq<DepositRecord>
    ghost var attempts: seq<Attempt>

    ghost function Now(): State
      reads this
    {
      State(lastHeight, attempts, outbox)
    }

    constructor (height: nat)
      ensures Now() == State(height, [], [])
    {
      lastHeight, outbox, attempts := height, [], [];
    }

    method ScanTx(tx: BtcTx, height: nat, registry: Registry, decodes: Address -> bool)
      modifies this`outbox
      ensures outbox == old(outbox) + VoutDeposits(tx.txid, tx.vouts, height, registry, decodes)
    {
      for j := 0 to |tx.vouts|
        invariant outbox == old(outbox) + VoutDeposits(tx.txid, tx.vouts[..j], height, registry, decodes)
      {
        assert tx.vouts[..j + 1][..j] == tx.vouts[..j];
        var vout := tx.vouts[j];
        if |vout.address| == 0 {
          continue;
        }
        if !decodes(vout.address) {
          continue;
        }
        if vout.address !in registry {
          continue;
        }
        outbox := outbox + [DepositRecord(tx.txid, vout.address, registry[vout.address], vout.amount, height, BTC)];
      }
      assert tx.vouts[..|tx.vouts|] == tx.vouts;
    }

    method ScanBlock(height: nat, block: BtcBlock, registry: Registry, decodes: Address -> bool)
      modifies this`outbox
      ensures outbox == old(outbox) + BtcDeposits(block, height, registry, decodes)
    {
      hide VoutDeposits;
      for i := 0 to |block|
        invariant outbox == old(outbox) + BtcDeposits(block[..i], height, registry, decodes)
      {
        assert block[..i + 1][..i] == block[..i];
        ScanTx(block[i], height, registry, decodes);
      }
      assert block[..|block|] == block;
    }

    method ProcessBlock(height: nat, v: PollView, registry: Registry, decodes: Address -> bool)
      modifies this
      ensures Now() == Process(old(Now()), height, v, registry, decodes)
    {
      attempts := attempts + [Attempt(height, v.Load(height), registry)];
      var hash := v.hashAt(height);
      if hash.None? {
        return;
      }
      var reply := v.blockOf(hash.value);
      if reply.None? {
        return;
      }
      ScanBlock(height, reply.value, registry, decodes);
    }

    method ScanNewBlocks(v: PollView, registry: Registry, decodes: Address -> bool)
      modifies this
      ensures Now() == Scan(old(Now()), v, registry, decodes)
    {
      hide Process, ScanFrom;
      if v.tip.None? {
        return;
      }
      var currentHeight := v.tip.value;
      if currentHeight <= lastHeight {
        return;
      }
      var h := lastHeight + 1;
      while h <= currentHeight
        invariant h <= currentHeight + 1
        invariant ScanFrom(Now(), h, currentHeight, v, registry, decodes) == Scan(old(Now()), v, registry, decodes)
      {
        ScanFromNext(Now(), h, currentHeight, v, registry, decodes);
        ProcessBlock(h, v, registry, decodes);
        h := h + 1;
      }
      ScanFromNext(Now(), h, currentHeight, v, registry, decodes);
      lastHeight := currentHeight;
    }
  }

  datatype Poll = Poll(view: PollView, registry: Registry)

  function Run(start: nat, polls: seq<Poll>, decodes: Address -> bool): State {
    if polls == [] then State(start, [], [])
    else
      var p := polls[|polls| - 1];
      Scan(Run(start, polls[..|polls| - 1], decodes), p.view, p.registry, decodes)
  }

  /** What one attempt adds: the records of the block if both of its calls are served, and otherwise none. */
  lemma {:induction false} AttemptExactly(s: State, h: nat, v: PollView, registry: Registry, decodes: Address -> bool)
    ensures var t := Process(s, h, v, registry, decodes);
            && t.lastHeight == s.lastHeight
            && var block := if v.hashAt(h).Some? then v.blockOf(v.hashAt(h).value) else None;
               t.outbox == s.outbox + if block.Some? then BtcDeposits(block.value, h, registry, decodes) else []
  {
  }

  lemma {:induction false} ScanFromInWords(s: State, h: nat, tip: nat, v: PollView, registry: Registry,
                                           decodes: Address -> bool)
    requires h <= tip + 1
    ensures var t := ScanFrom(s, h, tip, v, registry, decodes);
            && t.lastHeight == tip && |t.attempts| == |s.attempts| + (tip + 1 - h)
            && (forall i :: 0 <= i < |s.attempts| ==> t.attempts[i] == s.attempts[i])
            && (forall g: nat :: h <= g <= tip ==>
                  t.attempts[|s.attempts| + (g - h)] == Attempt(g, v.Load(g), registry))
    decreases tip + 1 - h
  {
    hide Found;
    if h <= tip {
      ScanFromInWords(Process(s, h, v, registry, decodes), h + 1, tip, v, registry, decodes);
    }
  }

  /**
   * What one poll does: without a tip above the cursor nothing; otherwise one attempt on each height above the cursor
   * up to the tip, in order, each with what the two calls for its block answer, and the cursor on the tip.
   */
  lemma {:induction false} PollExactly(s: State, v: PollView, registry: Registry, decodes: Address -> bool, g: nat)
    ensures v.tip.None? || v.tip.value <= s.lastHeight ==> Scan(s, v, registry, decodes) == s
    ensures v.tip.Some? && v.tip.value > s.lastHeight ==>
              var t := Scan(s, v, registry, decodes);
              && t.lastHeight == v.tip.value && |t.attempts| == |s.attempts| + (v.tip.value - s.lastHeight)
              && s.attempts <= t.attempts
              && (s.lastHeight < g <= v.tip.value ==>
                    t.attempts[|s.attempts| + (g - s.lastHeight - 1)] ==
                    Attempt(g, if v.hashAt(g).Some? then v.blockOf(v.hashAt(g).value) else None, registry))
  {
    hide ScanFrom;
    if v.tip.Some? && v.tip.value > s.lastHeight {
      ScanFromInWords(s, s.lastHeight + 1, v.tip.value, v, registry, decodes);
      var t := Scan(s, v, registry, decodes);
      assert s.lastHeight < g <= v.tip.value ==>
          t.attempts[|s.attempts| + (g - (s.lastHeight + 1))] == Attempt(g, v.Load(g), registry);
    }
  }

  /**
   * The heights above the start and below h were attempted once each, in order, and the records are what they found.
   */
  ghost predicate AttemptedBelow(start: nat, s: State, h: nat, decodes: Address -> bool) {
    && |s.attempts| + start + 1 == h
    && (forall i :: 0 <= i < |s.attempts| ==> s.attempts[i].height == start + 1 + i)
    && s.outbox == AllFound(s.attempts, decodes)
  }

  lemma {:induction false} ScanFromAttempts(start: nat, s: State, h: nat, tip: nat, v: PollView, registry: Registry,
                                            decodes: Address -> bool)
    requires AttemptedBelow(start, s, h, decodes) && h <= tip + 1
    ensures AttemptedBelow(start, ScanFrom(s, h, tip, v, registry, decodes), tip + 1, decodes)
    ensures ScanFrom(s, h, tip, v, registry, decodes).lastHeight == tip
    decreases tip + 1 - h
  {
    hide Found;
    if h <= tip {
      var s' := Process(s, h, v, registry, decodes);
      assert s'.attempts[..|s'.attempts| - 1] == s.attempts;
      ScanFromAttempts(start, s', h + 1, tip, v, registry, decodes);
    }
  }

  lemma {:induction false} ScanAttempts(start: nat, s: State, v: PollView, registry: Registry, decodes: Address -> bool)
    requires AttemptedBelow(start, s, s.lastHeight + 1, decodes)
    ensures var t := Scan(s, v, registry, decodes); AttemptedBelow(start, t, t.lastHeight + 1, decodes)
  {
    hide ScanFrom, AllFound;
    if v.tip.Some? && v.tip.value > s.lastHeight {
      ScanFromAttempts(start, s, s.lastHeight + 1, v.tip.value, v, registry, decodes);
    }
  }

  /**
   * After any run every height above the start up to the cursor was attempted exactly once, in order, and the records
   * are those of the attempts whose block was loaded: what a failed attempt missed is in no record.
   */
  lemma {:induction false} EveryHeightOnce(start: nat, polls: seq<Poll>, decodes: Address -> bool)
    ensures var s := Run(start, polls, decodes); AttemptedBelow(start, s, s.lastHeight + 1, decodes)
  {
    hide Scan;
    if polls != [] {
      var n := |polls| - 1;
      EveryHeightOnce(start, polls[..n], decodes);
      ScanAttempts(start, Run(start, polls[..n], decodes), polls[n].view, polls[n].registry, decodes);
    }
  }

  lemma {:induction false} ScanFromAppends(s: State, h: nat, tip: nat, v: PollView, registry: Registry,
                                           decodes: Address -> bool)
    ensures s.attempts <= ScanFrom(s, h, tip, v, registry, decodes).attempts
    decreases tip + 1 - h
  {
    hide Found;
    if h <= tip {
      ScanFromAppends(Process(s, h, v, registry, decodes), h + 1, tip, v, registry, decodes);
    }
  }

  lemma {:induction false} AttemptsStay(start: nat, polls: seq<Poll>, n: nat, decodes: Address -> bool)
    requires n <= |polls|
    ensures Run(start, polls[..n], decodes).attempts <= Run(start, polls, decodes).attempts
    decreases |polls|
  {
    hide ScanFrom;
    if n < |polls| {
      var p := polls[..|polls| - 1];
      assert p[..n] == polls[..n];
      AttemptsStay(start, p, n, decodes);
      var s, e := Run(start, p, decodes), polls[|polls| - 1];
      if e.view.tip.Some? && e.view.tip.value > s.lastHeight {
        ScanFromAppends(s, s.lastHeight + 1, e.view.tip.value, e.view, e.registry, decodes);
      }
    } else {
      assert polls[..n] == polls;
    }
  }

  /**
   * The watcher never looks back: whatever is polled later, with reorganisations or without, the attempts made so far
   * stand and every further one is on a height above the cursor. A block that replaces one at or below it is never
   * scanned.
   */
  lemma {:induction false} NeverLooksBack(start: nat, polls: seq<Poll>, n: nat, decodes: Address -> bool, k: nat)
    requires n <= |polls| && k < |Run(start, polls, decodes).attempts|
    ensures var before, after := Run(start, polls[..n], decodes), Run(start, polls, decodes);
            && before.attempts <= after.attempts
            && (k >= |before.attempts| <==> after.attempts[k].height > before.lastHeight)
  {
    hide Scan;
    EveryHeightOnce(start, polls[..n], decodes);
    EveryHeightOnce(start, polls, decodes);
    AttemptsStay(start, polls, n, decodes);
  }
}

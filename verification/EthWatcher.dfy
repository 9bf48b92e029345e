/** The Ethereum deposit watcher: a height cursor and a hash cursor that move at different moments. */
module EthWatching {
  import opened Basics
  import opened Deposits

  /**
   * Everything the node answers during one poll. A poll asks for the tip once, for the block of each height at
   * most once, and for one block a second time when it rolls back. None is a failed call.
   */
  datatype PollView = PollView(tip: Option<nat>, fetch: nat -> Option<EthBlock>, refetch: nat -> Option<EthBlock>)

  ghost predicate AnswersHeight(f: nat -> Option<EthBlock>) {
    forall h :: f(h).Some? ==> f(h).value.Number() == h
  }

  /** The node may fail and may switch chains between any two calls, but a block it returns has the height asked for. */
  ghost predicate Honest(v: PollView) {
    AnswersHeight(v.fetch) && AnswersHeight(v.refetch)
  }

  /**
   * What moved the hash cursor: a block that was scanned, with the registry then, or a rollback that only took over
   * its hash.
   */
  datatype Move = Accepted(block: EthBlock, registry: Registry) | Realigned(block: EthBlock)

  datatype State = State(lastHeight: nat, lastHash: Option<EthBlock>, history: seq<Move>, outbox: seq<DepositRecord>)

  function Process(s: State, h: nat, v: PollView, registry: Registry): (State, bool)
    requires h > 0
  {
    match v.fetch(h)
    case None => (s, false)
    case Some(b) =>
      if s.lastHash.Some? && b.ParentHash() != s.lastHash then
        match v.refetch(h - 1)
        case None => (s, false)
        case Some(p) => (State(h - 1, Some(p), s.history + [Realigned(p)], s.outbox), false)
      else
        var out := s.outbox + EthDeposits(b.txs, h, registry);
        (State(s.lastHeight, Some(b), s.history + [Accepted(b, registry)], out), true)
  }

  function ScanFrom(s: State, h: nat, tip: nat, v: PollView, registry: Registry): State
    requires h > 0
    decreases tip + 1 - h
  {
    if h > tip then s.(lastHeight := tip)
    else
      var (s', ok) := Process(s, h, v, registry);
      if ok then ScanFrom(s', h + 1, tip, v, registry) else s'
  }

  function Scan(s: State, v: PollView, registry: Registry): State {
    match v.tip
    case None => s
    case Some(tip) => if tip <= s.lastHeight then s else ScanFrom(s, s.lastHeight + 1, tip, v, registry)
  }

  datatype Poll = Poll(view: PollView, registry: Registry)

  function Start(head: EthBlock): State {
    State(head.Number(), Some(head), [], [])
  }

  function Run(s: State, polls: seq<Poll>): State {
    if polls == [] then s
    else
      var p := polls[|polls| - 1];
      Scan(Run(s, polls[..|polls| - 1]), p.view, p.registry)
  }

  class EthDepositWatcher {
    var lastHeight: nat
    var lastHash: Option<EthBlock>
    /** The records offered to the deposits channel, in order. */
    var outbox: seq<DepositRecord>
    ghost var history: seq<Move>

    ghost function Now(): State
      reads this
    {
      State(lastHeight, lastHash, history, outbox)
    }

    /** Start, up to its first tick: begin after the current head. */
    constructor (head: EthBlock)
      ensures Now() == Start(head)
    {
      lastHeight := head.Number();
      lastHash := Some(head);
      outbox := [];
      history := [];
    }

    method ProcessBlock(height: nat, v: PollView, registry: Registry) returns (ok: bool)
      requires height > 0
      modifies this
      ensures (Now(), ok) == Process(old(Now()), height, v, registry)
    {
      var reply := v.fetch(height);
      if reply.None? {
        return false;
      }
      var block := reply.value;
      if height > 0 && lastHash != None {
        if block.ParentHash() != lastHash {
          var prev := v.refetch(height - 1);
          if prev.None? {
            return false;
          }
          lastHash := prev;
          lastHeight := height - 1;
          history := history + [Realigned(prev.value)];
          return false;
        }
      }
      var i := 0;
      while i < |block.txs|
        invariant 0 <= i <= |block.txs|
        invariant outbox == old(outbox) + EthDeposits(block.txs[..i], height, registry)
        invariant lastHeight == old(lastHeight) && lastHash == old(lastHash) && history == old(history)
      {
        assert block.txs[..i + 1][..i] == block.txs[..i];
        var tx := block.txs[i];
        i := i + 1;
        if tx.to.None? {
          continue;
        }
        if tx.to.value !in registry {
          continue;
        }
        outbox := outbox + [DepositRecord(tx.hash, tx.to.value, registry[tx.to.value], tx.value, height, ETH)];
      }
      assert block.txs[..i] == block.txs;
      lastHash := Some(block);
      history := history + [Accepted(block, registry)];
      return true;
    }

    method ScanNewBlocks(v: PollView, registry: Registry)
      modifies this
      ensures Now() == Scan(old(Now()), v, registry)
    {
      if v.tip.None? {
        return;
      }
      var currentHeight := v.tip.value;
      if currentHeight <= lastHeight {
        return;
      }
      var h := lastHeight + 1;
      while h <= currentHeight
        invariant 0 < h <= currentHeight + 1
        invariant ScanFrom(Now(), h, currentHeight, v, registry) == Scan(old(Now()), v, registry)
      {
        var ok := ProcessBlock(h, v, registry);
        if !ok {
          return;
        }
        h := h + 1;
      }
      lastHeight := currentHeight;
    }
  }

  // ---- What every poll keeps ----

  /**
   * The i-th block above the height cursor is served and is a child of the one before, or of the hash cursor's block.
   */
  ghost predicate Follows(s: State, v: PollView, i: nat)
    requires i > 0
  {
    && v.fetch(s.lastHeight + i).Some?
    && var parent := if i == 1 then s.lastHash else v.fetch(s.lastHeight + i - 1);
       parent.None? || v.fetch(s.lastHeight + i).value.ParentHash() == parent
  }

  ghost predicate FollowTo(s: State, v: PollView, k: nat) {
    forall i :: 1 <= i <= k ==> Follows(s, v, i)
  }

  /**
   * The first k blocks above the height cursor are accepted: the height cursor stays, and the hash cursor moves along.
   */
  ghost function Accepting(s: State, v: PollView, registry: Registry, k: nat): State
    requires FollowTo(s, v, k)
  {
    if k == 0 then s
    else
      assert Follows(s, v, k);
      var t, b := Accepting(s, v, registry, k - 1), v.fetch(s.lastHeight + k).value;
      State(lastHeight := s.lastHeight, lastHash := Some(b), history := t.history + [Accepted(b, registry)],
            outbox := t.outbox + EthDeposits(b.txs, s.lastHeight + k, registry))
  }

  /** How a poll ends after k accepted blocks. */
  ghost function Ending(s: State, v: PollView, registry: Registry, tip: nat, k: nat): State
    requires FollowTo(s, v, k)
  {
    var t := Accepting(s, v, registry, k);
    if s.lastHeight + k == tip then t.(lastHeight := tip)
    else if v.fetch(s.lastHeight + k + 1).Some? && v.refetch(s.lastHeight + k).Some? then
      var p := v.refetch(s.lastHeight + k).value;
      State(lastHeight := s.lastHeight + k, lastHash := Some(p), history := t.history + [Realigned(p)],
            outbox := t.outbox)
    else t
  }

  lemma {:induction false} AcceptingCursor(s: State, v: PollView, registry: Registry, k: nat)
    requires FollowTo(s, v, k)
    ensures var t := Accepting(s, v, registry, k);
            && t.lastHeight == s.lastHeight
            && t.lastHash == if k == 0 then s.lastHash else v.fetch(s.lastHeight + k)
  {
    assert k > 0 ==> Follows(s, v, k);
  }

  lemma {:induction false} ScanFromInWords(s: State, t: State, tip: nat, v: PollView, registry: Registry, k: nat)
    returns (n: nat)
    requires FollowTo(s, v, k) && t == Accepting(s, v, registry, k) && s.lastHeight + k <= tip
    requires k > 0 ==> v.fetch(s.lastHeight + k).Some?
    ensures s.lastHeight + n <= tip && FollowTo(s, v, n) && (s.lastHeight + n < tip ==> !Follows(s, v, n + 1))
    ensures ScanFrom(t, s.lastHeight + k + 1, tip, v, registry) == Ending(s, v, registry, tip, n)
    decreases tip - (s.lastHeight + k)
  {
    hide EthDeposits;
    n := k;
    var h := s.lastHeight + k + 1;
    if h <= tip {
      AcceptingCursor(s, v, registry, k);
      if Follows(s, v, k + 1) {
        assert FollowTo(s, v, k + 1);
        n := ScanFromInWords(s, Process(t, h, v, registry).0, tip, v, registry, k + 1);
      }
    }
  }

  /**
   * What one poll does, in full. Without a tip above the height cursor nothing. Otherwise it accepts the blocks above
   * the height cursor as long as each is served and fits the one before. If that reaches the tip, the height cursor
   * moves to the tip. If the next block was served but does not fit, and the block before it is served once more, both
   * cursors move to that one. In every other case the height cursor stays where it was.
   */
  lemma {:induction false} PollExactly(s: State, v: PollView, registry: Registry) returns (n: nat)
    ensures v.tip.None? || v.tip.value <= s.lastHeight ==> Scan(s, v, registry) == s
    ensures v.tip.Some? && v.tip.value > s.lastHeight ==>
              && s.lastHeight + n <= v.tip.value && FollowTo(s, v, n)
              && (s.lastHeight + n < v.tip.value ==> !Follows(s, v, n + 1))
              && Scan(s, v, registry) == Ending(s, v, registry, v.tip.value, n)
  {
    n := 0;
    if v.tip.Some? && v.tip.value > s.lastHeight {
      n := ScanFromInWords(s, s, v.tip.value, v, registry, 0);
    }
  }

  ghost predicate AllHonest(polls: seq<Poll>) {
    forall i :: 0 <= i < |polls| ==> Honest(polls[i].view)
  }

  ghost predicate HeightAccepted(history: seq<Move>, h: nat) {
    exists i :: 0 <= i < |history| && history[i].Accepted? && history[i].block.Number() == h
  }

  /** The block whose hash the cursor held after the first i moves. */
  function CursorBlock(start: EthBlock, history: seq<Move>, i: nat): EthBlock
    requires i <= |history|
  {
    if i == 0 then start else history[i - 1].block
  }

  /**
   * What every poll keeps. The hash cursor is never behind the height cursor, every height between the start and
   * the hash cursor was accepted, and each accepted block is a child of the block that the cursor held before.
   */
  ghost predicate Inv(start: EthBlock, s: State) {
    && s.lastHash == Some(CursorBlock(start, s.history, |s.history|))
    && start.Number() <= s.lastHeight <= s.lastHash.value.Number()
    && (forall h :: start.Number() < h <= s.lastHash.value.Number() ==> HeightAccepted(s.history, h))
    && (forall i :: 0 <= i < |s.history| && s.history[i].Accepted? ==>
          s.history[i].block.ParentHash() == Some(CursorBlock(start, s.history, i)))
  }

  lemma {:induction false} InvAccept(start: EthBlock, s: State, b: EthBlock, registry: Registry,
                                     out: seq<DepositRecord>)
    requires Inv(start, s) && b.ParentHash() == s.lastHash
    ensures Inv(start, State(s.lastHeight, Some(b), s.history + [Accepted(b, registry)], out))
  {
    var history := s.history + [Accepted(b, registry)];
    forall h | start.Number() < h <= b.Number()
      ensures HeightAccepted(history, h)
    {
      if h == b.Number() {
        assert history[|s.history|].Accepted?;
      } else {
        assert HeightAccepted(s.history, h);
        var i :| 0 <= i < |s.history| && s.history[i].Accepted? && s.history[i].block.Number() == h;
        assert history[i] == s.history[i];
      }
    }
    forall i | 0 <= i <= |s.history|
      ensures CursorBlock(start, history, i) == CursorBlock(start, s.history, i)
    {
    }
  }

  lemma {:induction false} InvRealign(start: EthBlock, s: State, p: EthBlock)
    requires Inv(start, s) && start.Number() <= p.Number() <= s.lastHash.value.Number()
    ensures Inv(start, State(p.Number(), Some(p), s.history + [Realigned(p)], s.outbox))
  {
    var history := s.history + [Realigned(p)];
    forall h | start.Number() < h <= p.Number()
      ensures HeightAccepted(history, h)
    {
      assert HeightAccepted(s.history, h);
      var i :| 0 <= i < |s.history| && s.history[i].Accepted? && s.history[i].block.Number() == h;
      assert history[i] == s.history[i];
    }
    forall i | 0 <= i <= |s.history|
      ensures CursorBlock(start, history, i) == CursorBlock(start, s.history, i)
    {
    }
  }

  /** The history only grows, and the part a scan from height h appends accepts heights from h on. */
  ghost predicate Extends(before: State, after: State, h: nat) {
    && before.lastHeight <= after.lastHeight
    && before.history <= after.history
    && (forall i :: |before.history| <= i < |after.history| && after.history[i].Accepted? ==>
        after.history[i].block.Number() >= h)
  }

  lemma {:induction false} ScanFromKeeps(start: EthBlock, s: State, h: nat, tip: nat, v: PollView, registry: Registry)
    requires Honest(v) && Inv(start, s) && s.lastHeight < h <= tip + 1 && s.lastHash.value.Number() >= h - 1
    requires h > tip ==> s.lastHash.value.Number() == h - 1
    ensures Inv(start, ScanFrom(s, h, tip, v, registry))
    ensures Extends(s, ScanFrom(s, h, tip, v, registry), h)
    decreases tip + 1 - h
  {
    hide EthDeposits, HeightAccepted, CursorBlock;
    if h <= tip && v.fetch(h).Some? {
      var b := v.fetch(h).value;
      if b.ParentHash() == s.lastHash {
        InvAccept(start, s, b, registry, s.outbox + EthDeposits(b.txs, h, registry));
        ScanFromKeeps(start, Process(s, h, v, registry).0, h + 1, tip, v, registry);
      } else if v.refetch(h - 1).Some? {
        InvRealign(start, s, v.refetch(h - 1).value);
      }
    }
  }

  lemma {:induction false} ScanKeeps(start: EthBlock, s: State, v: PollView, registry: Registry)
    requires Honest(v) && Inv(start, s)
    ensures Inv(start, Scan(s, v, registry)) && Extends(s, Scan(s, v, registry), s.lastHeight + 1)
  {
    if v.tip.Some? && v.tip.value > s.lastHeight {
      ScanFromKeeps(start, s, s.lastHeight + 1, v.tip.value, v, registry);
    }
  }

  lemma {:induction false} RunKeeps(start: EthBlock, s: State, polls: seq<Poll>)
    requires AllHonest(polls) && Inv(start, s)
    ensures Inv(start, Run(s, polls)) && Extends(s, Run(s, polls), s.lastHeight + 1)
  {
    if polls != [] {
      var n := |polls| - 1;
      RunKeeps(start, s, polls[..n]);
      ScanKeeps(start, Run(s, polls[..n]), polls[n].view, polls[n].registry);
    }
  }

  /** Under any failures and reorgs, every height up to the cursor was accepted at least once. */
  lemma {:induction false} NoGaps(start: EthBlock, polls: seq<Poll>, h: nat)
    requires AllHonest(polls) && start.Number() < h <= Run(Start(start), polls).lastHeight
    ensures HeightAccepted(Run(Start(start), polls).history, h)
  {
    RunKeeps(start, Start(start), polls);
  }

  /** The height cursor never moves back, rollbacks included. */
  lemma {:induction false} CursorNeverFalls(start: EthBlock, polls: seq<Poll>, more: seq<Poll>)
    requires AllHonest(polls) && AllHonest(more)
    ensures var s := Run(Start(start), polls); s.lastHeight <= Run(s, more).lastHeight
  {
    RunKeeps(start, Start(start), polls);
    RunKeeps(start, Run(Start(start), polls), more);
  }

  ghost predicate NoRealignIn(history: seq<Move>, i: nat, j: nat)
    requires i <= j <= |history|
  {
    forall m :: i <= m < j ==> history[m].Accepted?
  }

  /** b lies n generations above a. */
  ghost predicate Descends(a: EthBlock, b: EthBlock, n: nat) {
    if n == 0 then a == b else b.Child? && Descends(a, b.parent, n - 1)
  }

  /** Between two realignments the accepted blocks are one chain, height by height. */
  lemma {:induction false} SegmentDescends(start: EthBlock, s: State, i: nat, j: nat)
    requires Inv(start, s) && i <= j <= |s.history| && NoRealignIn(s.history, i, j)
    ensures Descends(CursorBlock(start, s.history, i), CursorBlock(start, s.history, j), j - i)
    ensures CursorBlock(start, s.history, j).Number() == CursorBlock(start, s.history, i).Number() + (j - i)
    decreases j
  {
    if i < j {
      SegmentDescends(start, s, i, j - 1);
      assert s.history[j - 1].Accepted?;
    }
  }

  lemma {:induction false} LinkedSegments(start: EthBlock, polls: seq<Poll>, i: nat, j: nat)
    requires AllHonest(polls)
    requires i <= j <= |Run(Start(start), polls).history| && NoRealignIn(Run(Start(start), polls).history, i, j)
    ensures var history := Run(Start(start), polls).history;
            && Descends(CursorBlock(start, history, i), CursorBlock(start, history, j), j - i)
            && CursorBlock(start, history, j).Number() == CursorBlock(start, history, i).Number() + (j - i)
  {
    RunKeeps(start, Start(start), polls);
    SegmentDescends(start, Run(Start(start), polls), i, j);
  }

  /** A height is scanned again only after a realignment in between. */
  lemma {:induction false} RescanNeedsRealignment(start: EthBlock, polls: seq<Poll>, i: nat, j: nat)
    requires AllHonest(polls) && i < j < |Run(Start(start), polls).history|
    requires var history := Run(Start(start), polls).history;
             history[i].Accepted? && history[j].Accepted? && history[j].block.Number() <= history[i].block.Number()
    ensures exists m :: i < m < j && Run(Start(start), polls).history[m].Realigned?
  {
    var history := Run(Start(start), polls).history;
    if NoRealignIn(history, i + 1, j + 1) {
      LinkedSegments(start, polls, i + 1, j + 1);
    }
  }

  // ---- Recovery ----

  /** The node answers every call, from one chain of blocks with the given tip. */
  ghost predicate Healthy(v: PollView, chain: nat -> EthBlock, tip: nat) {
    && v.tip == Some(tip)
    && (forall h: nat :: h <= tip ==> v.fetch(h) == Some(chain(h)) && v.refetch(h) == Some(chain(h)))
  }

  ghost predicate Linked(chain: nat -> EthBlock, h: nat) {
    if h == 0 then chain(0).Genesis? else chain(h).ParentHash() == Some(chain(h - 1))
  }

  ghost predicate IsChain(chain: nat -> EthBlock) {
    forall h: nat :: Linked(chain, h)
  }

  lemma {:induction false} ChainNumber(chain: nat -> EthBlock, h: nat)
    requires IsChain(chain)
    ensures chain(h).Number() == h
  {
    assert Linked(chain, h);
    if h > 0 {
      ChainNumber(chain, h - 1);
    }
  }

  /** The hash cursor holds the block at the height cursor, or nothing. */
  ghost predicate OnChain(s: State, chain: nat -> EthBlock, h: nat) {
    s.lastHash == None || s.lastHash == Some(chain(h))
  }

  lemma {:induction false} HealthyScan(s: State, h: nat, chain: nat -> EthBlock, tip: nat, v: PollView,
                                       registry: Registry)
    requires IsChain(chain) && Healthy(v, chain, tip) && 0 < h <= tip && OnChain(s, chain, h - 1)
    ensures var s' := ScanFrom(s, h, tip, v, registry); s'.lastHeight == tip && s'.lastHash == Some(chain(tip))
    decreases tip - h
  {
    assert Linked(chain, h);
    if h < tip {
      HealthyScan(Process(s, h, v, registry).0, h + 1, chain, tip, v, registry);
    }
  }

  /**
   * From any state at all: two healthy polls reach the tip with its hash, and the first of them is enough exactly
   * when the hash cursor already agrees with the chain at the height cursor.
   */
  lemma {:induction false} TwoPollRecovery(s: State, chain: nat -> EthBlock, tip: nat, v: PollView, w: PollView,
                                           r: Registry, q: Registry)
    requires IsChain(chain) && Healthy(v, chain, tip) && Healthy(w, chain, tip) && s.lastHeight < tip
    ensures var s' := Scan(Scan(s, v, r), w, q); s'.lastHeight == tip && s'.lastHash == Some(chain(tip))
    ensures Scan(s, v, r).lastHeight == tip <==> OnChain(s, chain, s.lastHeight)
  {
    var h := s.lastHeight + 1;
    assert Linked(chain, h);
    if OnChain(s, chain, s.lastHeight) {
      HealthyScan(s, h, chain, tip, v, r);
    } else {
      HealthyScan(Scan(s, v, r), h, chain, tip, w, q);
    }
  }
}

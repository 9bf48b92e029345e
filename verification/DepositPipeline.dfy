/** From the watchers' channels to the deposits table: bounded queues, two consumers with retries, dead letters. */
module DepositPipeline {
  import opened Basics
  import opened Deposits

  const CAPACITY := 100
  const MAX_RETRIES := 3

  /** The record a consumer works on, and how many of its inserts failed so far. */
  datatype InHand = InHand(record: DepositRecord, failed: nat)

  datatype Lane = Lane(queue: seq<DepositRecord>, hand: Option<InHand>)

  /** One channel and one consumer for each chain, and the tables they share. */
  datatype State = State(btc: Lane, eth: Lane, rows: seq<DepositRecord>,
                         dead: seq<DepositRecord>, dropped: seq<DepositRecord>, lost: seq<DepositRecord>) {
    function At(c: Chain): Lane {
      if c.BTC? then btc else eth
    }

    function With(c: Chain, lane: Lane): State {
      if c.BTC? then this.(btc := lane) else this.(eth := lane)
    }
  }

  const EMPTY := State(Lane([], None), Lane([], None), [], [], [], [])

  /**
   * One step of a watcher or of a consumer. Offer is the non-blocking send; Insert is one attempt on the deposits
   * table and Bury the attempt on the dead-letter table, each with whether the database was able to serve it.
   */
  datatype Step =
    | Offer(record: DepositRecord)
    | Take(chain: Chain)
    | Insert(chain: Chain, dbOk: bool)
    | Bury(chain: Chain, dbOk: bool)

  predicate Enabled(s: State, step: Step) {
    match step
    case Offer(_) => true
    case Take(c) => s.At(c).hand.None? && s.At(c).queue != []
    case Insert(c, _) => s.At(c).hand.Some? && s.At(c).hand.value.failed < MAX_RETRIES
    case Bury(c, _) => s.At(c).hand.Some? && s.At(c).hand.value.failed == MAX_RETRIES
  }

  /** A step that is not enabled does nothing. */
  function Apply(s: State, step: Step): State {
    if !Enabled(s, step) then s else
    match step
    case Offer(r) =>
      var lane := s.At(r.chain);
      if |lane.queue| < CAPACITY then s.With(r.chain, lane.(queue := lane.queue + [r]))
      else s.(dropped := s.dropped + [r])
    case Take(c) =>
      var lane := s.At(c);
      s.With(c, Lane(lane.queue[1..], Some(InHand(lane.queue[0], 0))))
    case Insert(c, dbOk) =>
      var lane := s.At(c);
      var h := lane.hand.value;
      if dbOk && !HasTx(s.rows, h.record.txId) then s.With(c, lane.(hand := None)).(rows := s.rows + [h.record])
      else s.With(c, lane.(hand := Some(h.(failed := h.failed + 1))))
    case Bury(c, dbOk) =>
      var lane := s.At(c);
      var r := lane.hand.value.record;
      if dbOk then s.With(c, lane.(hand := None)).(dead := s.dead + [r])
      else s.With(c, lane.(hand := None)).(lost := s.lost + [r])
  }

  /** The state after any interleaving of the watchers and the consumers. */
  function Run(steps: seq<Step>): State {
    if steps == [] then EMPTY else Apply(Run(steps[..|steps| - 1]), steps[|steps| - 1])
  }

  /** Every step is one that its actor can take. */
  ghost predicate Legal(steps: seq<Step>) {
    steps == [] || (Legal(steps[..|steps| - 1]) && Enabled(Run(steps[..|steps| - 1]), steps[|steps| - 1]))
  }

  lemma {:induction false} DisabledDoesNothing(s: State, step: Step)
    requires !Enabled(s, step)
    ensures Apply(s, step) == s
  {
  }

  /** The inserts of one record in a row, until one succeeds or three have failed. */
  function Retry(s: State, c: Chain, inserts: nat -> bool): State
    decreases if s.At(c).hand.Some? then MAX_RETRIES - s.At(c).hand.value.failed else 0
  {
    if !Enabled(s, Insert(c, true)) then s
    else Retry(Apply(s, Insert(c, inserts(s.At(c).hand.value.failed))), c, inserts)
  }

  function Consume(s: State, c: Chain, inserts: nat -> bool, dlq: bool): State {
    Apply(Retry(Apply(s, Take(c)), c, inserts), Bury(c, dlq))
  }

  class Pipeline {
    var btc: Lane
    var eth: Lane
    var rows: seq<DepositRecord>
    var dead: seq<DepositRecord>
    var dropped: seq<DepositRecord>
    var lost: seq<DepositRecord>

    ghost function Now(): State
      reads this
    {
      State(btc, eth, rows, dead, dropped, lost)
    }

    constructor ()
      ensures Now() == EMPTY
    {
      btc, eth := Lane([], None), Lane([], None);
      rows, dead, dropped, lost := [], [], [], [];
    }

    method SetLane(c: Chain, lane: Lane)
      modifies this`btc, this`eth
      ensures Now() == old(Now()).With(c, lane)
    {
      if c.BTC? {
        btc := lane;
      } else {
        eth := lane;
      }
    }

    /** The select with a default branch at the end of processBlock. */
    method Send(r: DepositRecord)
      modifies this
      ensures Now() == Apply(old(Now()), Offer(r))
    {
      var lane := if r.chain.BTC? then btc else eth;
      if |lane.queue| < CAPACITY {
        SetLane(r.chain, lane.(queue := lane.queue + [r]));
      } else {
        dropped := dropped + [r];
      }
    }

    method TryInsert(r: DepositRecord, dbOk: bool) returns (ok: bool)
      modifies this`rows
      ensures ok <==> dbOk && !HasTx(old(rows), r.txId)
      ensures rows == if ok then old(rows) + [r] else old(rows)
    {
      var i := 0;
      while i < |rows|
        invariant 0 <= i <= |rows|
        invariant forall j :: 0 <= j < i ==> rows[j].txId != r.txId
      {
        if rows[i].txId == r.txId {
          return false;
        }
        i := i + 1;
      }
      if dbOk {
        rows := rows + [r];
      }
      return dbOk;
    }

    /** The receive of the range over the channel. */
    method Receive(c: Chain) returns (r: DepositRecord)
      requires Enabled(Now(), Take(c))
      modifies this
      ensures Now() == Apply(old(Now()), Take(c)) && Now().At(c).hand == Some(InHand(r, 0))
    {
      var lane := if c.BTC? then btc else eth;
      r := lane.queue[0];
      SetLane(c, Lane(lane.queue[1..], Some(InHand(r, 0))));
    }

    /** One pass of the retry loop. */
    method Attempt(c: Chain, r: DepositRecord, i: nat, dbOk: bool) returns (ok: bool)
      requires i < MAX_RETRIES && Now().At(c).hand == Some(InHand(r, i))
      modifies this
      ensures Now() == Apply(old(Now()), Insert(c, dbOk))
      ensures Now().At(c).hand == if ok then None else Some(InHand(r, i + 1))
    {
      hide HasTx;
      ok := TryInsert(r, dbOk);
      var lane := if c.BTC? then btc else eth;
      SetLane(c, lane.(hand := if ok then None else Some(InHand(r, i + 1))));
    }

    method DeadLetter(c: Chain, r: DepositRecord, dlq: bool)
      requires Now().At(c).hand == Some(InHand(r, MAX_RETRIES))
      modifies this
      ensures Now() == Apply(old(Now()), Bury(c, dlq))
    {
      var lane := if c.BTC? then btc else eth;
      SetLane(c, lane.(hand := None));
      if dlq {
        dead := dead + [r];
      } else {
        lost := lost + [r];
      }
    }

    /**
     * One round of consumeDeposits on a channel that has a record, when nothing interleaves: up to three inserts,
     * then a dead letter. inserts(i) and dlq say whether the database serves attempt i and the dead letter.
     */
    method ConsumeOne(c: Chain, inserts: nat -> bool, dlq: bool)
      requires Enabled(Now(), Take(c))
      modifies this
      ensures Now() == Consume(old(Now()), c, inserts, dlq)
    {
      hide Apply;
      var deposit := Receive(c);
      ghost var taken := Now();
      var failed := true;
      var i := 0;
      while i < MAX_RETRIES && failed
        invariant 0 <= i <= MAX_RETRIES
        invariant Retry(Now(), c, inserts) == Retry(taken, c, inserts)
        invariant Now().At(c).hand == if failed then Some(InHand(deposit, i)) else None
      {
        var ok := Attempt(c, deposit, i, inserts(i));
        failed := !ok;
        i := i + 1;
      }
      assert Now() == Retry(taken, c, inserts);
      if failed {
        DeadLetter(c, deposit, dlq);
      } else {
        DisabledDoesNothing(Now(), Bury(c, dlq));
      }
    }
  }

  // ---- Conservation ----

  function Offered(steps: seq<Step>): seq<DepositRecord> {
    if steps == [] then []
    else Offered(steps[..|steps| - 1]) + if steps[|steps| - 1].Offer? then [steps[|steps| - 1].record] else []
  }

  function Held(lane: Lane): seq<DepositRecord> {
    if lane.hand.Some? then [lane.hand.value.record] else []
  }

  function Occurrences(s: seq<DepositRecord>, x: DepositRecord): nat {
    multiset(s)[x]
  }

  function InLane(lane: Lane, x: DepositRecord): nat {
    Occurrences(lane.queue, x) + Occurrences(Held(lane), x)
  }

  /** How often a record is somewhere. */
  function Tally(s: State, x: DepositRecord): nat {
    InLane(s.btc, x) + InLane(s.eth, x) +
    Occurrences(s.rows, x) + Occurrences(s.dead, x) + Occurrences(s.dropped, x) + Occurrences(s.lost, x)
  }

  lemma {:induction false} OccurrencesOf(s: seq<DepositRecord>, r: DepositRecord, x: DepositRecord)
    ensures Occurrences([], x) == 0
    ensures Occurrences([r], x) == if r == x then 1 else 0
    ensures Occurrences(s + [r], x) == Occurrences(s, x) + Occurrences([r], x)
    ensures s != [] ==> Occurrences(s, x) == Occurrences([s[0]], x) + Occurrences(s[1..], x)
  {
    if s != [] {
      assert s == [s[0]] + s[1..];
    }
  }

  /** What is not in the lanes. */
  function Kept(s: State, x: DepositRecord): nat {
    Occurrences(s.rows, x) + Occurrences(s.dead, x) + Occurrences(s.dropped, x) + Occurrences(s.lost, x)
  }

  lemma {:induction false} TallyWith(s: State, c: Chain, lane: Lane, x: DepositRecord)
    ensures Tally(s, x) == InLane(s.btc, x) + InLane(s.eth, x) + Kept(s, x)
    ensures Kept(s.With(c, lane), x) == Kept(s, x)
    ensures Tally(s.With(c, lane), x) == Tally(s, x) - InLane(s.At(c), x) + InLane(lane, x)
  {
    hide Occurrences, InLane;
  }

  lemma {:induction false} OfferConserves(s: State, r: DepositRecord, x: DepositRecord)
    ensures Tally(Apply(s, Offer(r)), x) == Tally(s, x) + Occurrences([r], x)
  {
    hide Occurrences, HasTx;
    var lane := s.At(r.chain);
    OccurrencesOf(lane.queue, r, x);
    OccurrencesOf(s.dropped, r, x);
    TallyWith(s, r.chain, lane.(queue := lane.queue + [r]), x);
    assert |lane.queue| >= CAPACITY ==> Apply(s, Offer(r)) == s.(dropped := s.dropped + [r]);
  }

  lemma {:induction false} TakeConserves(s: State, c: Chain, x: DepositRecord)
    requires Enabled(s, Take(c))
    ensures Tally(Apply(s, Take(c)), x) == Tally(s, x)
  {
    hide Occurrences, Tally, Kept, HasTx;
    var lane := s.At(c);
    OccurrencesOf(lane.queue, lane.queue[0], x);
    OccurrencesOf([], lane.queue[0], x);
    TallyWith(s, c, Lane(lane.queue[1..], Some(InHand(lane.queue[0], 0))), x);
  }

  lemma {:induction false} InsertConserves(s: State, c: Chain, dbOk: bool, x: DepositRecord)
    requires Enabled(s, Insert(c, dbOk))
    ensures Tally(Apply(s, Insert(c, dbOk)), x) == Tally(s, x)
  {
    hide Occurrences, HasTx;
    var lane := s.At(c);
    var h := lane.hand.value;
    OccurrencesOf(s.rows, h.record, x);
    if dbOk && !HasTx(s.rows, h.record.txId) {
      TallyWith(s.(rows := s.rows + [h.record]), c, lane.(hand := None), x);
      assert Apply(s, Insert(c, dbOk)) == s.(rows := s.rows + [h.record]).With(c, lane.(hand := None));
    } else {
      TallyWith(s, c, lane.(hand := Some(h.(failed := h.failed + 1))), x);
    }
  }

  lemma {:induction false} BuryConserves(s: State, c: Chain, dbOk: bool, x: DepositRecord)
    requires Enabled(s, Bury(c, dbOk))
    ensures Tally(Apply(s, Bury(c, dbOk)), x) == Tally(s, x)
  {
    hide Occurrences, HasTx;
    var lane := s.At(c);
    var r := lane.hand.value.record;
    OccurrencesOf(s.dead, r, x);
    OccurrencesOf(s.lost, r, x);
    var buried := if dbOk then s.(dead := s.dead + [r]) else s.(lost := s.lost + [r]);
    TallyWith(buried, c, lane.(hand := None), x);
    assert Apply(s, Bury(c, dbOk)) == buried.With(c, lane.(hand := None));
  }

  /** A step moves records about; only an offer adds one. */
  lemma {:induction false} StepConserves(s: State, step: Step, x: DepositRecord)
    requires Enabled(s, step)
    ensures Tally(Apply(s, step), x) == Tally(s, x) + if step.Offer? then Occurrences([step.record], x) else 0
  {
    hide Occurrences, Tally, Apply, Enabled;
    match step
    case Offer(r) => OfferConserves(s, r, x);
    case Take(c) => TakeConserves(s, c, x);
    case Insert(c, dbOk) => InsertConserves(s, c, dbOk, x);
    case Bury(c, dbOk) => BuryConserves(s, c, dbOk, x);
  }

  predicate Bounded(lane: Lane) {
    |lane.queue| <= CAPACITY && (lane.hand.Some? ==> lane.hand.value.failed <= MAX_RETRIES)
  }

  lemma {:induction false} StepBounded(s: State, step: Step)
    requires Enabled(s, step) && forall c :: Bounded(s.At(c))
    ensures forall c :: Bounded(Apply(s, step).At(c))
  {
    hide HasTx;
    var t := Apply(s, step);
    forall c
      ensures Bounded(t.At(c))
    {
      assert Bounded(s.At(c));
    }
  }

  lemma {:induction false} EmptyStart()
    ensures forall x :: Tally(EMPTY, x) == 0 && Occurrences([], x) == 0
    ensures forall c :: Bounded(EMPTY.At(c))
  {
  }

  /**
   * No record is lost track of: at every moment of every interleaving the records offered so far are, as a multiset,
   * those queued, in a consumer's hand, in deposits, dead-lettered, dropped or lost. No queue exceeds its capacity and
   * no record is tried more than three times.
   */
  lemma {:induction false} Conservation(steps: seq<Step>)
    requires Legal(steps)
    ensures forall x :: Tally(Run(steps), x) == Occurrences(Offered(steps), x)
    ensures forall c :: Bounded(Run(steps).At(c))
  {
    hide Occurrences, Tally, Bounded, Apply, Enabled;
    if steps == [] {
      EmptyStart();
    } else {
      var p, e := steps[..|steps| - 1], steps[|steps| - 1];
      Conservation(p);
      forall x
        ensures Tally(Run(steps), x) == Occurrences(Offered(steps), x)
      {
        StepConserves(Run(p), e, x);
        if e.Offer? {
          OccurrencesOf(Offered(p), e.record, x);
        } else {
          assert Offered(steps) == Offered(p);
        }
      }
      StepBounded(Run(p), e);
    }
  }

  /**
   * Why a record can miss the table: it was dropped with a full queue, or three of its inserts failed; and it is gone
   * for good only if its dead letter failed too. failures counts the failed inserts since the record was taken.
   */
  function Failures(steps: seq<Step>, c: Chain): nat
  {
    if steps == [] then 0
    else
      var e := steps[|steps| - 1];
      if e == Take(c) then 0
      else Failures(steps[..|steps| - 1], c) + if e.Insert? && e.chain == c then 1 else 0
  }

  lemma {:induction false} FailuresInHand(steps: seq<Step>, c: Chain)
    requires Legal(steps) && Run(steps).At(c).hand.Some?
    ensures Run(steps).At(c).hand.value.failed == Failures(steps, c)
  {
    var p := steps[..|steps| - 1];
    if Run(p).At(c).hand.Some? {
      FailuresInHand(p, c);
    }
  }

  lemma {:induction false} FateOfARecord(steps: seq<Step>, step: Step)
    requires Legal(steps) && Enabled(Run(steps), step)
    ensures var s, t := Run(steps), Apply(Run(steps), step);
            && (t.dropped != s.dropped ==> step.Offer? && |s.At(step.record.chain).queue| == CAPACITY)
            && (t.dead != s.dead || t.lost != s.lost ==> step.Bury? && Failures(steps, step.chain) == MAX_RETRIES)
            && (t.lost != s.lost ==> !step.dbOk)
  {
    hide Run, Legal, Tally, HasTx, Failures;
    Conservation(steps);
    if step.Bury? {
      FailuresInHand(steps, step.chain);
    }
    assert step.Offer? ==> Bounded(Run(steps).At(step.record.chain));
  }

  // ---- The numbers ----

  /** A record offered is queued behind the others if fewer than 100 are, and is dropped otherwise. */
  lemma {:induction false} OfferExactly(s: State, r: DepositRecord)
    ensures var t, lane := Apply(s, Offer(r)), s.At(r.chain);
            && (|lane.queue| < 100 ==> t == s.With(r.chain, Lane(lane.queue + [r], lane.hand)))
            && (|lane.queue| >= 100 ==> t == s.(dropped := s.dropped + [r]))
  {
  }

  /** With and At are the chain's own lane. */
  lemma {:induction false} LaneOf(s: State, c: Chain, lane: Lane)
    ensures s.At(BTC) == s.btc && s.At(ETH) == s.eth
    ensures s.With(BTC, lane) == s.(btc := lane) && s.With(ETH, lane) == s.(eth := lane)
  {
  }

  lemma {:induction false} RetryOnce(s: State, c: Chain, inserts: nat -> bool, queue: seq<DepositRecord>,
                                     r: DepositRecord, n: nat)
    requires s.At(c) == Lane(queue, Some(InHand(r, n))) && n < 3
    ensures var t := Apply(s, Insert(c, inserts(n)));
            && Retry(s, c, inserts) == Retry(t, c, inserts)
            && t == (if inserts(n) && !HasTx(s.rows, r.txId) then s.With(c, Lane(queue, None)).(rows := s.rows + [r])
                     else s.With(c, Lane(queue, Some(InHand(r, n + 1)))))
  {
    hide HasTx;
  }

  lemma {:induction false} RetryEnds(s: State, c: Chain, inserts: nat -> bool)
    requires s.At(c).hand.None? || s.At(c).hand.value.failed >= 3
    ensures Retry(s, c, inserts) == s
  {
  }

  /**
   * One round of a consumer on the oldest queued record: if no row has its transaction and one of the first three
   * inserts is served, it is the new last row; otherwise it goes to the dead letters, or is lost if that insert fails.
   * Nothing else changes.
   */
  lemma {:induction false} ConsumeExactly(s: State, c: Chain, inserts: nat -> bool, dlq: bool)
    requires s.At(c).queue != [] && s.At(c).hand == None
    ensures var r, rest := s.At(c).queue[0], s.With(c, Lane(s.At(c).queue[1..], None));
            var stored := !HasTx(s.rows, r.txId) && (inserts(0) || inserts(1) || inserts(2));
            Consume(s, c, inserts, dlq) ==
              if stored then rest.(rows := s.rows + [r])
              else if dlq then rest.(dead := s.dead + [r])
              else rest.(lost := s.lost + [r])
  {
    hide HasTx;
    var q := s.At(c).queue;
    var t := Apply(s, Take(c));
    assert t == s.With(c, Lane(q[1..], Some(InHand(q[0], 0))));
    RetryOnce(t, c, inserts, q[1..], q[0], 0);
    var t1 := Apply(t, Insert(c, inserts(0)));
    if t1.At(c).hand.Some? {
      RetryOnce(t1, c, inserts, q[1..], q[0], 1);
      var t2 := Apply(t1, Insert(c, inserts(1)));
      if t2.At(c).hand.Some? {
        RetryOnce(t2, c, inserts, q[1..], q[0], 2);
        var t3 := Apply(t2, Insert(c, inserts(2)));
        RetryEnds(t3, c, inserts);
      } else {
        RetryEnds(t2, c, inserts);
      }
    } else {
      RetryEnds(t1, c, inserts);
    }
  }

  /** A record is tried while it has failed less than three times, and is given up exactly then. */
  lemma {:induction false} TriesExactly(s: State, c: Chain, dbOk: bool)
    ensures Enabled(s, Insert(c, dbOk)) <==> s.At(c).hand.Some? && s.At(c).hand.value.failed < 3
    ensures Enabled(s, Bury(c, dbOk)) <==> s.At(c).hand.Some? && s.At(c).hand.value.failed == 3
  {
  }

  /**
   * In every reachable state: a record is dropped only with exactly 100 queued, and given up only after exactly three
   * failed inserts since it was taken.
   */
  lemma {:induction false} FateInNumbers(steps: seq<Step>, step: Step)
    requires Legal(steps) && Enabled(Run(steps), step)
    ensures var s, t := Run(steps), Apply(Run(steps), step);
            && (t.dropped != s.dropped <==> step.Offer? && |s.At(step.record.chain).queue| == 100)
            && (t.dead != s.dead || t.lost != s.lost <==> step.Bury? && Failures(steps, step.chain) == 3)
  {
    hide Run, Legal, HasTx, Failures, Tally;
    FateOfARecord(steps, step);
    if step.Bury? {
      FailuresInHand(steps, step.chain);
    }
  }

  // ---- Which transactions have a row ----

  /** How often a record is anywhere but in deposits: queued, in hand, dead-lettered, dropped or lost. */
  function Astray(s: State, x: DepositRecord): nat {
    Tally(s, x) - Occurrences(s.rows, x)
  }

  /** Every record offered for the transaction went astray. */
  ghost predicate AllAstray(steps: seq<Step>, txId: TxHash) {
    forall x: DepositRecord :: x.txId == txId ==> Astray(Run(steps), x) >= Occurrences(Offered(steps), x)
  }

  /**
   * At every moment of every run, whatever the database and the queues do: a transaction has no row exactly when every
   * record offered for it is still under way, was dropped, dead-lettered or lost.
   */
  lemma {:induction false} RowMissingExactly(steps: seq<Step>, txId: TxHash)
    requires Legal(steps)
    ensures !HasTx(Run(steps).rows, txId) <==> AllAstray(steps, txId)
  {
    hide Run, Legal, Offered, Tally;
    Conservation(steps);
    var s := Run(steps);
    if HasTx(s.rows, txId) {
      var i :| 0 <= i < |s.rows| && s.rows[i].txId == txId;
      assert s.rows[i] in multiset(s.rows);
      assert Astray(s, s.rows[i]) < Occurrences(Offered(steps), s.rows[i]);
    } else {
      forall x: DepositRecord | x.txId == txId
        ensures Astray(s, x) >= Occurrences(Offered(steps), x)
      {
        assert x !in s.rows;
      }
    }
  }

  lemma {:induction false} HasTxSnoc(s: seq<DepositRecord>, r: DepositRecord, txId: TxHash)
    ensures HasTx(s + [r], txId) <==> HasTx(s, txId) || r.txId == txId
  {
    if HasTx(s, txId) {
      var i :| 0 <= i < |s| && s[i].txId == txId;
      assert (s + [r])[i].txId == txId;
    }
    if r.txId == txId {
      assert (s + [r])[|s|].txId == txId;
    }
    if HasTx(s + [r], txId) {
      var i :| 0 <= i < |s + [r]| && (s + [r])[i].txId == txId;
      assert i < |s| ==> s[i].txId == txId;
    }
  }

  /** At step n a consumer inserts a record of the transaction, and the database serves the insert. */
  ghost predicate ServedAt(steps: seq<Step>, n: nat, txId: TxHash)
    requires n < |steps|
  {
    var s, e := Run(steps[..n]), steps[n];
    e.Insert? && e.dbOk && Enabled(s, e) && s.At(e.chain).hand.value.record.txId == txId
  }

  ghost predicate InsertServed(steps: seq<Step>, txId: TxHash) {
    exists n :: 0 <= n < |steps| && ServedAt(steps, n, txId)
  }

  lemma {:induction false} InsertServedLast(steps: seq<Step>, txId: TxHash)
    requires steps != []
    ensures var n := |steps| - 1;
            InsertServed(steps, txId) <==> InsertServed(steps[..n], txId) || ServedAt(steps, n, txId)
  {
    hide Run, Enabled;
    var p := steps[..|steps| - 1];
    forall n | 0 <= n < |p|
      ensures ServedAt(steps, n, txId) <==> ServedAt(p, n, txId)
    {
      assert steps[..n] == p[..n];
    }
    if n :| 0 <= n < |p| && ServedAt(p, n, txId) {
      assert ServedAt(steps, n, txId);
    }
    if n :| 0 <= n < |steps| && ServedAt(steps, n, txId) {
      assert n < |p| ==> ServedAt(p, n, txId);
    }
  }

  lemma {:induction false} NothingServed(txId: TxHash)
    ensures !HasTx(EMPTY.rows, txId) && !InsertServed([], txId)
  {
  }

  /** Why a transaction has a row, at every moment of every run: an insert of one of its records was served. */
  lemma {:induction false} RowExactly(steps: seq<Step>, txId: TxHash)
    ensures HasTx(Run(steps).rows, txId) <==> InsertServed(steps, txId)
  {
    hide HasTx, InsertServed;
    if steps == [] {
      NothingServed(txId);
    } else {
      var n := |steps| - 1;
      var s, e := Run(steps[..n]), steps[n];
      RowExactly(steps[..n], txId);
      InsertServedLast(steps, txId);
      if Enabled(s, e) && e.Insert? {
        HasTxSnoc(s.rows, s.At(e.chain).hand.value.record, txId);
      }
    }
  }

  ghost predicate LaneTagged(lane: Lane, c: Chain) {
    && (lane.hand.Some? ==> lane.hand.value.record.chain == c)
    && (forall i :: 0 <= i < |lane.queue| ==> lane.queue[i].chain == c)
  }

  /** Records lie only in the lane of their chain. */
  ghost predicate Tagged(s: State) {
    forall c :: LaneTagged(s.At(c), c)
  }

  lemma {:induction false} StepTagged(s: State, step: Step)
    requires Tagged(s) && Enabled(s, step)
    ensures Tagged(Apply(s, step))
  {
    hide HasTx;
    var t := Apply(s, step);
    forall c
      ensures LaneTagged(t.At(c), c)
    {
      assert LaneTagged(s.At(c), c);
    }
  }

  lemma {:induction false} EmptyTagged()
    ensures Tagged(EMPTY)
  {
    assert forall d :: LaneTagged(EMPTY.At(d), d);
  }

  lemma {:induction false} RunTagged(steps: seq<Step>)
    requires Legal(steps)
    ensures Tagged(Run(steps))
  {
    hide Tagged, Apply, Enabled;
    if steps == [] {
      assert Tagged(EMPTY) by {
        EmptyTagged();
      }
    } else {
      RunTagged(steps[..|steps| - 1]);
      StepTagged(Run(steps[..|steps| - 1]), steps[|steps| - 1]);
    }
  }

  /** Of the chain nothing is under way, and what was dropped or given up has a row all the same. */
  ghost predicate Settled(s: State, c: Chain) {
    && s.At(c) == Lane([], None)
    && forall r: DepositRecord :: r.chain == c && (r in s.dropped || r in s.dead || r in s.lost) ==>
      HasTx(s.rows, r.txId)
  }

  /** Then every record offered for the chain has its row, however many inserts failed on the way. */
  lemma {:induction false} EverythingHasARow(steps: seq<Step>, c: Chain, r: DepositRecord)
    requires Legal(steps) && Settled(Run(steps), c) && r in Offered(steps) && r.chain == c
    ensures HasTx(Run(steps).rows, r.txId)
  {
    hide Run, Legal, Offered;
    Conservation(steps);
    RunTagged(steps);
    var s := Run(steps);
    assert LaneTagged(s.btc, BTC) && LaneTagged(s.eth, ETH) by {
      assert s.btc == s.At(BTC) && s.eth == s.At(ETH);
      assert LaneTagged(s.At(BTC), BTC) && LaneTagged(s.At(ETH), ETH);
    }
    assert r in multiset(Offered(steps));
    assert Tally(s, r) > 0;
    if r in s.rows {
      var i :| 0 <= i < |s.rows| && s.rows[i] == r;
    }
  }

  /** A row stays as it is in every continuation. */
  lemma {:induction false} RowsStay(steps: seq<Step>, n: nat)
    requires n <= |steps|
    ensures Run(steps[..n]).rows <= Run(steps).rows
    decreases |steps|
  {
    hide HasTx;
    if n < |steps| {
      var p := steps[..|steps| - 1];
      assert p[..n] == steps[..n];
      RowsStay(p, n);
    } else {
      assert steps[..n] == steps;
    }
  }

  // ---- Exactly one row for each transaction ----

  function OfChain(s: seq<DepositRecord>, c: Chain): seq<DepositRecord> {
    if s == [] then []
    else OfChain(s[..|s| - 1], c) + if s[|s| - 1].chain == c then [s[|s| - 1]] else []
  }

  /** A consumer gives a record of the chain up only when its transaction has a row already. */
  ghost predicate GivesUpRepeatsOnly(steps: seq<Step>, c: Chain) {
    steps == [] ||
    var p, e := steps[..|steps| - 1], steps[|steps| - 1];
    && GivesUpRepeatsOnly(p, c)
    && (e == Bury(c, true) || e == Bury(c, false) ==>
          Run(p).At(c).hand.Some? && HasTx(OfChain(Run(p).rows, c), Run(p).At(c).hand.value.record.txId))
  }

  /** A transaction id belongs to one chain. */
  ghost predicate IdsByChain(records: seq<DepositRecord>) {
    forall i, j :: 0 <= i < |records| && 0 <= j < |records| && records[i].txId == records[j].txId ==>
      records[i].chain == records[j].chain
  }

  lemma {:induction false} OfChainSnoc(s: seq<DepositRecord>, r: DepositRecord, c: Chain)
    ensures OfChain(s + [r], c) == OfChain(s, c) + if r.chain == c then [r] else []
  {
    assert (s + [r])[..|s|] == s;
  }

  lemma {:induction false} HasTxOfChain(s: seq<DepositRecord>, c: Chain, txId: TxHash)
    requires forall i :: 0 <= i < |s| && s[i].txId == txId ==> s[i].chain == c
    ensures HasTx(OfChain(s, c), txId) <==> HasTx(s, txId)
  {
    if s != [] {
      var n := |s| - 1;
      HasTxOfChain(s[..n], c, txId);
      HasTxSnoc(OfChain(s[..n], c), s[n], txId);
      HasTxSnoc(s[..n], s[n], txId);
      assert s == s[..n] + [s[n]];
      assert s[n].chain != c ==> OfChain(s, c) == OfChain(s[..n], c);
    }
  }

  /**
   * What a lane has done with the records offered to it: the first ones, less the repeats, are its rows; the rest are
   * in hand or queued, in order.
   */
  ghost predicate Delivered(s: State, c: Chain, offered: seq<DepositRecord>) {
    var pending := Held(s.At(c)) + s.At(c).queue;
    && |pending| <= |offered|
    && offered[|offered| - |pending|..] == pending
    && OfChain(s.rows, c) == FirstByTx(offered[..|offered| - |pending|])
  }

  lemma {:induction false} OfferDelivers(s: State, r: DepositRecord, c: Chain, offered: seq<DepositRecord>)
    requires Delivered(s, c, offered) && (r.chain == c ==> |s.At(c).queue| < CAPACITY)
    ensures Delivered(Apply(s, Offer(r)), c, offered + if r.chain == c then [r] else [])
  {
    hide OfChain, FirstByTx, HasTx;
    var t := Apply(s, Offer(r));
    if r.chain == c {
      var pending := Held(s.At(c)) + s.At(c).queue;
      var n := |offered| - |pending|;
      assert Held(t.At(c)) + t.At(c).queue == pending + [r];
      assert (offered + [r])[n..] == pending + [r] && (offered + [r])[..n] == offered[..n];
    } else {
      assert offered + [] == offered && t.At(c) == s.At(c);
    }
  }

  lemma {:induction false} TakeDelivers(s: State, d: Chain, c: Chain, offered: seq<DepositRecord>)
    requires Delivered(s, c, offered) && Enabled(s, Take(d))
    ensures Delivered(Apply(s, Take(d)), c, offered)
  {
    hide OfChain, FirstByTx, HasTx;
    var t := Apply(s, Take(d));
    if d == c {
      assert Held(t.At(c)) + t.At(c).queue == Held(s.At(c)) + s.At(c).queue;
    } else {
      assert t.At(c) == s.At(c);
    }
  }

  /** The record in hand is finished: it is the next of the done ones. */
  lemma {:induction false} FinishDelivers(s: State, t: State, c: Chain, offered: seq<DepositRecord>)
    requires Delivered(s, c, offered) && s.At(c).hand.Some?
    requires t.At(c) == s.At(c).(hand := None)
    requires var r := s.At(c).hand.value.record;
             OfChain(t.rows, c) == if HasTx(OfChain(s.rows, c), r.txId) then OfChain(s.rows, c)
               else OfChain(s.rows, c) + [r]
    ensures Delivered(t, c, offered)
  {
    hide OfChain, FirstByTx, HasTx;
    var r, pending := s.At(c).hand.value.record, Held(s.At(c)) + s.At(c).queue;
    var n := |offered| - |pending|;
    assert pending == [r] + t.At(c).queue;
    assert offered[n] == offered[n..][0] == r;
    assert offered[..n + 1] == offered[..n] + [r];
    assert offered[n + 1..] == offered[n..][1..] == t.At(c).queue;
    assert Held(t.At(c)) + t.At(c).queue == t.At(c).queue;
    FirstByTxSnoc(offered[..n], r);
  }

  lemma {:induction false} InsertDelivers(s: State, d: Chain, dbOk: bool, c: Chain, offered: seq<DepositRecord>)
    requires Delivered(s, c, offered) && Enabled(s, Insert(d, dbOk)) && Tagged(s)
    requires forall i :: 0 <= i < |s.rows| && d == c && s.rows[i].txId == s.At(c).hand.value.record.txId ==>
             s.rows[i].chain == c
    ensures Delivered(Apply(s, Insert(d, dbOk)), c, offered)
  {
    hide FirstByTx, OfChain, HasTx;
    var t, r := Apply(s, Insert(d, dbOk)), s.At(d).hand.value.record;
    assert LaneTagged(s.At(d), d);
    if d == c {
      HasTxOfChain(s.rows, c, r.txId);
      if dbOk && !HasTx(s.rows, r.txId) {
        OfChainSnoc(s.rows, r, c);
        FinishDelivers(s, t, c, offered);
      } else {
        assert Held(t.At(c)) == Held(s.At(c)) && t.rows == s.rows;
      }
    } else {
      OfChainSnoc(s.rows, r, c);
      assert OfChain(t.rows, c) == OfChain(s.rows, c) && t.At(c) == s.At(c);
    }
  }

  lemma {:induction false} BuryDelivers(s: State, d: Chain, dlq: bool, c: Chain, offered: seq<DepositRecord>)
    requires Delivered(s, c, offered) && Enabled(s, Bury(d, dlq))
    requires d == c ==> HasTx(OfChain(s.rows, c), s.At(c).hand.value.record.txId)
    ensures Delivered(Apply(s, Bury(d, dlq)), c, offered)
  {
    hide FirstByTx, OfChain, HasTx;
    var t := Apply(s, Bury(d, dlq));
    if d == c {
      FinishDelivers(s, t, c, offered);
    } else {
      assert t.At(c) == s.At(c) && t.rows == s.rows;
    }
  }

  /** A row was offered. */
  lemma {:induction false} RowsWereOffered(steps: seq<Step>, r: DepositRecord)
    requires Legal(steps) && (r in Run(steps).rows || r in Held(Run(steps).btc) || r in Held(Run(steps).eth))
    ensures r in Offered(steps)
  {
    hide Run, Legal, Offered;
    Conservation(steps);
    var s := Run(steps);
    assert Tally(s, r) > 0;
    assert Occurrences(Offered(steps), r) > 0;
  }

  lemma {:induction false} OfChainMember(s: seq<DepositRecord>, c: Chain)
    ensures OfChain(s, c) == [] ==> forall i :: 0 <= i < |s| ==> s[i].chain != c
  {
    if s != [] {
      OfChainMember(s[..|s| - 1], c);
    }
  }

  lemma {:induction false} NothingDelivered(c: Chain)
    ensures Tagged(EMPTY) && Delivered(EMPTY, c, OfChain([], c))
  {
    hide HasTx;
    EmptyTagged();
    assert OfChain([], c) == [] && FirstByTx([]) == [];
    assert Held(EMPTY.At(c)) + EMPTY.At(c).queue == [];
  }

  /** A step drops nothing of the lane when nothing of the lane was dropped in the end. */
  lemma {:induction false} DropsGrow(s: State, step: Step, c: Chain)
    requires Enabled(s, step) && OfChain(Apply(s, step).dropped, c) == []
    ensures OfChain(s.dropped, c) == []
    ensures step.Offer? && step.record.chain == c ==> |s.At(c).queue| < CAPACITY
  {
    hide OfChain, HasTx;
    if step.Offer? {
      OfChainSnoc(s.dropped, step.record, c);
    }
  }

  lemma {:induction false} SameIdSameChain(steps: seq<Step>, c: Chain, i: nat)
    requires Legal(steps) && IdsByChain(Offered(steps)) && Tagged(Run(steps)) && Run(steps).At(c).hand.Some?
    requires i < |Run(steps).rows| && Run(steps).rows[i].txId == Run(steps).At(c).hand.value.record.txId
    ensures Run(steps).rows[i].chain == c
  {
    hide Run, Legal, Offered;
    var s := Run(steps);
    var a, b := s.rows[i], s.At(c).hand.value.record;
    assert b in Held(s.At(c)) && LaneTagged(s.At(c), c);
    RowsWereOffered(steps, a);
    RowsWereOffered(steps, b);
    var k :| 0 <= k < |Offered(steps)| && Offered(steps)[k] == a;
    var m :| 0 <= m < |Offered(steps)| && Offered(steps)[m] == b;
  }

  lemma {:induction false} LaneDelivers(steps: seq<Step>, c: Chain)
    requires Legal(steps) && GivesUpRepeatsOnly(steps, c) && IdsByChain(Offered(steps))
    requires OfChain(Run(steps).dropped, c) == []
    ensures Tagged(Run(steps)) && Delivered(Run(steps), c, OfChain(Offered(steps), c))
  {
    hide Delivered, Tagged, OfChain, HasTx;
    if steps == [] {
      NothingDelivered(c);
    } else {
      var p, e := steps[..|steps| - 1], steps[|steps| - 1];
      var s, offered := Run(p), OfChain(Offered(p), c);
      var all := if e.Offer? then Offered(p) + [e.record] else Offered(p);
      assert Offered(steps) == all;
      assert IdsByChain(Offered(p)) by {
        assert forall i :: 0 <= i < |Offered(p)| ==> Offered(p)[i] == all[i];
      }
      DropsGrow(s, e, c);
      LaneDelivers(p, c);
      StepTagged(s, e);
      match e {
        case Offer(r) =>
          OfChainSnoc(Offered(p), r, c);
          OfferDelivers(s, r, c, offered);
        case Take(d) =>
          TakeDelivers(s, d, c, offered);
        case Insert(d, dbOk) =>
          forall i | 0 <= i < |s.rows| && d == c && s.rows[i].txId == s.At(c).hand.value.record.txId
            ensures s.rows[i].chain == c
          {
            SameIdSameChain(p, c, i);
          }
          InsertDelivers(s, d, dbOk, c, offered);
        case Bury(d, dlq) =>
          BuryDelivers(s, d, dlq, c, offered);
      }
    }
  }

  /**
   * Exactly one row for each transaction of a chain, in order: once the lane is drained, if nothing of it was dropped
   * and only repeats were given up, its rows are the records offered to it, without the repeats. Inserts of either
   * lane may fail at any time, and the other lane may do anything with transactions of its own.
   */
  lemma {:induction false} ExactlyOnce(steps: seq<Step>, c: Chain)
    requires Legal(steps) && GivesUpRepeatsOnly(steps, c) && IdsByChain(Offered(steps))
    requires OfChain(Run(steps).dropped, c) == [] && Run(steps).At(c) == Lane([], None)
    ensures OfChain(Run(steps).rows, c) == FirstByTx(OfChain(Offered(steps), c))
  {
    hide Run, Legal, Offered, OfChain, FirstByTx;
    LaneDelivers(steps, c);
    var offered := OfChain(Offered(steps), c);
    assert offered[..|offered|] == offered;
  }
}

/** Confirmation of deposits by one or several checkers at once. */
module Confirming {
  import opened Basics
  import opened Deposits

  const BTC_REQUIRED := 6
  const ETH_REQUIRED := 12

  datatype Deposit = Deposit(chain: Chain, height: int, confirmed: bool)

  /** The deposits table by row id. */
  type Table = map<nat, Deposit>

  /**
   * What the world answers one check run: the two chain heights, None where the call fails, and whether the update of a
   * row is served.
   */
  datatype Job = Job(btc: Option<int>, eth: Option<int>, served: nat -> bool)

  /** A failed height call leaves the height at 0. */
  function Height(job: Job, c: Chain): int {
    var h := if c.BTC? then job.btc else job.eth;
    if h.Some? then h.value else 0
  }

  function Required(c: Chain): int {
    if c.BTC? then BTC_REQUIRED else ETH_REQUIRED
  }

  predicate Deep(job: Job, d: Deposit) {
    Height(job, d.chain) - d.height >= Required(d.chain)
  }

  /** The body of the loop for one listed row, whose chain and height are those read by the listing. */
  function Update(t: Table, job: Job, id: nat, listed: Deposit): Table {
    if Deep(job, listed) && job.served(id) && id in t then t[id := t[id].(confirmed := true)] else t
  }

  function UpdateAll(t: Table, job: Job, listed: seq<(nat, Deposit)>): Table {
    if listed == [] then t
    else UpdateAll(Update(t, job, listed[0].0, listed[0].1), job, listed[1..])
  }

  /** The rows that a check run without interference confirms. */
  predicate Ripe(t: Table, job: Job, id: nat) {
    id in t && !t[id].confirmed && Deep(job, t[id]) && job.served(id)
  }

  /** A whole check run, done at once. */
  function CheckAtOnce(t: Table, job: Job): Table {
    map id | id in t :: if Ripe(t, job, id) then t[id].(confirmed := true) else t[id]
  }

  /** The unconfirmed rows, each once, by height. */
  ghost predicate Lists(t: Table, listed: seq<(nat, Deposit)>) {
    && (forall i :: 0 <= i < |listed| ==> listed[i].0 in t && listed[i].1 == t[listed[i].0] && !listed[i].1.confirmed)
    && (forall i, j :: 0 <= i < j < |listed| ==> listed[i].0 != listed[j].0 && listed[i].1.height <= listed[j].1.height)
    && (forall id :: id in t && !t[id].confirmed ==> exists i :: 0 <= i < |listed| && listed[i].0 == id)
  }

  /** A listing under way: the rows still to come are unconfirmed, none of them lower than a listed one. */
  ghost predicate ListsUpTo(t: Table, listed: seq<(nat, Deposit)>, todo: set<nat>) {
    && (forall id :: id in todo ==> id in t && !t[id].confirmed)
    && (forall i :: 0 <= i < |listed| ==>
          listed[i].0 in t && listed[i].1 == t[listed[i].0] && !listed[i].1.confirmed && listed[i].0 !in todo)
    && (forall i, j :: 0 <= i < j < |listed| ==> listed[i].0 != listed[j].0 && listed[i].1.height <= listed[j].1.height)
    && (forall i, id :: 0 <= i < |listed| && id in todo ==> listed[i].1.height <= t[id].height)
    && (forall id :: id in t && !t[id].confirmed ==> id in todo || exists i :: 0 <= i < |listed| && listed[i].0 == id)
  }

  lemma {:induction false} LowestExists(t: Table, ids: set<nat>) returns (id: nat)
    requires ids != {} && forall x :: x in ids ==> x in t
    ensures id in ids && forall x :: x in ids ==> t[id].height <= t[x].height
    decreases |ids|
  {
    var y :| y in ids;
    var rest := ids - {y};
    id := y;
    if rest == {} {
      assert forall x :: x in ids ==> x == y || x in rest;
    } else {
      var z := LowestExists(t, rest);
      id := if t[y].height <= t[z].height then y else z;
      assert forall x :: x in ids ==> x == y || x in rest;
    }
  }

  lemma {:induction false} ListNext(t: Table, listed: seq<(nat, Deposit)>, todo: set<nat>, id: nat)
    requires ListsUpTo(t, listed, todo) && id in todo && forall x :: x in todo ==> t[id].height <= t[x].height
    ensures ListsUpTo(t, listed + [(id, t[id])], todo - {id})
  {
    var after := listed + [(id, t[id])];
    forall x | x in t && !t[x].confirmed && x !in todo - {id}
      ensures exists i :: 0 <= i < |after| && after[i].0 == x
    {
      if x == id {
        assert after[|listed|].0 == x;
      } else {
        var i :| 0 <= i < |listed| && listed[i].0 == x;
        assert after[i].0 == x;
      }
    }
  }

  /** A check run under way, with what is left of its listing. */
  datatype Active = Active(job: Job, remaining: seq<(nat, Deposit)>)

  /** The run will still confirm the row. */
  ghost predicate WillConfirm(r: Active, id: nat) {
    r.job.served(id) && exists i :: 0 <= i < |r.remaining| && r.remaining[i].0 == id && Deep(r.job, r.remaining[i].1)
  }

  /** Updates only set the flag, of listed rows that are deep. */
  lemma {:induction false} UpdateAllRows(t: Table, job: Job, listed: seq<(nat, Deposit)>, id: nat)
    ensures UpdateAll(t, job, listed).Keys == t.Keys
    ensures id in t ==>
              var confirmed := t[id].confirmed || WillConfirm(Active(job, listed), id);
              UpdateAll(t, job, listed)[id] == t[id].(confirmed := confirmed)
    decreases |listed|
  {
    if listed != [] {
      var u := Update(t, job, listed[0].0, listed[0].1);
      UpdateAllRows(u, job, listed[1..], id);
      if i :| 0 <= i < |listed| && listed[i].0 == id && Deep(job, listed[i].1) {
        assert i > 0 ==> listed[1..][i - 1] == listed[i];
      }
      if i :| 0 <= i < |listed[1..]| && listed[1..][i].0 == id && Deep(job, listed[1..][i].1) {
        assert listed[i + 1] == listed[1..][i];
      }
    }
  }

  lemma {:induction false} UpdateAllExactly(t: Table, job: Job, listed: seq<(nat, Deposit)>)
    requires Lists(t, listed)
    ensures UpdateAll(t, job, listed) == CheckAtOnce(t, job)
  {
    var u := UpdateAll(t, job, listed);
    forall id | id in t
      ensures id in u && u[id] == CheckAtOnce(t, job)[id]
    {
      UpdateAllRows(t, job, listed, id);
      if Ripe(t, job, id) {
        var i :| 0 <= i < |listed| && listed[i].0 == id;
      }
    }
    UpdateAllRows(t, job, listed, 0);
  }

  class ConfirmChecker {
    var deposits: Table

    constructor (deposits: Table)
      ensures this.deposits == deposits
    {
      this.deposits := deposits;
    }

    /** The SELECT of the unconfirmed rows. */
    method ListUnconfirmed() returns (listed: seq<(nat, Deposit)>)
      ensures Lists(deposits, listed)
    {
      listed := [];
      var todo := set id | id in deposits && !deposits[id].confirmed;
      while todo != {}
        invariant ListsUpTo(deposits, listed, todo)
        decreases |todo|
      {
        ghost var lowest := LowestExists(deposits, todo);
        var id :| id in todo && forall x :: x in todo ==> deposits[id].height <= deposits[x].height;
        ListNext(deposits, listed, todo, id);
        todo := todo - {id};
        listed := listed + [(id, deposits[id])];
      }
    }

    /** check, when no other checker runs: it confirms exactly the ripe rows. */
    method Check(job: Job, listOk: bool)
      modifies this
      ensures deposits == if listOk then CheckAtOnce(old(deposits), job) else old(deposits)
    {
      if !listOk {
        return;
      }
      var listed := ListUnconfirmed();
      var btcHeight := if job.btc.Some? then job.btc.value else 0;
      var ethHeight := if job.eth.Some? then job.eth.value else 0;
      ghost var t := deposits;
      var i := 0;
      while i < |listed|
        invariant 0 <= i <= |listed|
        invariant UpdateAll(deposits, job, listed[i..]) == UpdateAll(t, job, listed)
      {
        var (id, d) := listed[i];
        var required := if d.chain.BTC? then BTC_REQUIRED else ETH_REQUIRED;
        var currentHeight := if d.chain.BTC? then btcHeight else ethHeight;
        assert listed[i..][0] == listed[i] && listed[i..][1..] == listed[i + 1..];
        if currentHeight - d.height >= required {
          if job.served(id) && id in deposits {
            deposits := deposits[id := deposits[id].(confirmed := true)];
          }
        }
        i := i + 1;
      }
      UpdateAllExactly(t, job, listed);
    }
  }

  // ---- Several checkers at once ----

  datatype State = State(table: Table, runs: seq<Active>)

  /** A deposit arrives; a checker lists; a checker handles the next row of its listing. */
  datatype Step =
    | Arrive(id: nat, deposit: Deposit)
    | List(job: Job, listed: seq<(nat, Deposit)>)
    | Handle(run: nat)

  ghost predicate Enabled(s: State, step: Step) {
    match step
    case Arrive(id, d) => id !in s.table
    case List(job, listed) => Lists(s.table, listed)
    case Handle(i) => i < |s.runs| && s.runs[i].remaining != []
  }

  function Apply(s: State, step: Step): State {
    match step
    case Arrive(id, d) => if id in s.table then s else s.(table := s.table[id := d])
    case List(job, listed) => s.(runs := s.runs + [Active(job, listed)])
    case Handle(i) =>
      if i >= |s.runs| || s.runs[i].remaining == [] then s
      else
        var r := s.runs[i];
        State(Update(s.table, r.job, r.remaining[0].0, r.remaining[0].1),
              s.runs[i := r.(remaining := r.remaining[1..])])
  }

  function Run(t: Table, steps: seq<Step>): State {
    if steps == [] then State(t, []) else Apply(Run(t, steps[..|steps| - 1]), steps[|steps| - 1])
  }

  ghost predicate Legal(t: Table, steps: seq<Step>) {
    steps == [] || (Legal(t, steps[..|steps| - 1]) && Enabled(Run(t, steps[..|steps| - 1]), steps[|steps| - 1]))
  }

  /** The same arrivals, with each check run done at once at the moment of its listing. */
  function Sequential(t: Table, steps: seq<Step>): Table {
    if steps == [] then t
    else
      var u := Sequential(t, steps[..|steps| - 1]);
      match steps[|steps| - 1]
      case Arrive(id, d) => if id in u then u else u[id := d]
      case List(job, _) => CheckAtOnce(u, job)
      case Handle(_) => u
  }

  ghost predicate SomeWillConfirm(runs: seq<Active>, id: nat) {
    exists k :: 0 <= k < |runs| && WillConfirm(runs[k], id)
  }

  /** The sequential table is the real one with all the confirmations to come. */
  ghost predicate Ahead(s: State, u: Table) {
    && u.Keys == s.table.Keys
    && (forall id :: id in u ==>
          u[id] == s.table[id].(confirmed := s.table[id].confirmed || SomeWillConfirm(s.runs, id)))
    && (forall k, i :: 0 <= k < |s.runs| && 0 <= i < |s.runs[k].remaining| ==> s.runs[k].remaining[i].0 in s.table)
  }

  lemma {:induction false} SomeSnoc(runs: seq<Active>, r: Active, id: nat)
    ensures SomeWillConfirm(runs + [r], id) <==> SomeWillConfirm(runs, id) || WillConfirm(r, id)
  {
    hide WillConfirm;
    var all := runs + [r];
    if k :| 0 <= k < |runs| && WillConfirm(runs[k], id) {
      assert WillConfirm(all[k], id);
    }
    if WillConfirm(r, id) {
      assert WillConfirm(all[|runs|], id);
    }
    if k :| 0 <= k < |all| && WillConfirm(all[k], id) {
      assert k < |runs| ==> WillConfirm(runs[k], id);
    }
  }

  lemma {:induction false} AheadAfterList(s: State, u: Table, job: Job, listed: seq<(nat, Deposit)>)
    requires Ahead(s, u) && Lists(s.table, listed)
    ensures Ahead(Apply(s, List(job, listed)), CheckAtOnce(u, job))
  {
    var t, v := Apply(s, List(job, listed)), CheckAtOnce(u, job);
    var r := Active(job, listed);
    forall id | id in v
      ensures v[id] == t.table[id].(confirmed := t.table[id].confirmed || SomeWillConfirm(t.runs, id))
    {
      SomeSnoc(s.runs, r, id);
      if !u[id].confirmed {
        var i :| 0 <= i < |listed| && listed[i].0 == id;
        assert Ripe(u, job, id) <==> WillConfirm(r, id);
      }
    }
  }

  lemma {:induction false} NextOrLater(r: Active, id: nat)
    requires r.remaining != []
    ensures WillConfirm(r, id) <==>
            WillConfirm(r.(remaining := r.remaining[1..]), id) ||
            (r.remaining[0].0 == id && r.job.served(id) && Deep(r.job, r.remaining[0].1))
  {
    var later := r.remaining[1..];
    if i :| 0 <= i < |r.remaining| && r.remaining[i].0 == id && Deep(r.job, r.remaining[i].1) {
      assert i > 0 ==> later[i - 1] == r.remaining[i];
    }
    if i :| 0 <= i < |later| && later[i].0 == id && Deep(r.job, later[i].1) {
      assert r.remaining[i + 1] == later[i];
    }
  }

  /** Replacing a run splits what it will confirm into the next row and the rest. */
  lemma {:induction false} SomeAfterHandle(runs: seq<Active>, k: nat, id: nat)
    requires k < |runs| && runs[k].remaining != []
    ensures var r := runs[k];
            var (x, d) := r.remaining[0];
            var after := runs[k := r.(remaining := r.remaining[1..])];
            SomeWillConfirm(runs, id) <==> SomeWillConfirm(after, id) || (x == id && r.job.served(id) && Deep(r.job, d))
  {
    var r := runs[k];
    var q := r.(remaining := r.remaining[1..]);
    var after := runs[k := q];
    assert WillConfirm(r, id) <==>
             WillConfirm(q, id) || (r.remaining[0].0 == id && r.job.served(id) && Deep(r.job, r.remaining[0].1)) by {
      NextOrLater(r, id);
    }
    hide WillConfirm;
    if j :| 0 <= j < |runs| && WillConfirm(runs[j], id) {
      assert j != k ==> WillConfirm(after[j], id);
      assert j == k ==> (WillConfirm(q, id) ==> WillConfirm(after[k], id));
    }
    if j :| 0 <= j < |after| && WillConfirm(after[j], id) {
      assert j != k ==> WillConfirm(runs[j], id);
      assert WillConfirm(q, id) ==> WillConfirm(runs[k], id);
    }
    if r.remaining[0].0 == id && r.job.served(id) && Deep(r.job, r.remaining[0].1) {
      assert WillConfirm(runs[k], id);
    }
  }

  lemma {:induction false} AheadAfterHandle(s: State, u: Table, k: nat)
    requires Ahead(s, u) && Enabled(s, Handle(k))
    ensures Ahead(Apply(s, Handle(k)), u)
  {
    hide SomeWillConfirm;
    var t := Apply(s, Handle(k));
    forall id | id in u
      ensures u[id] == t.table[id].(confirmed := t.table[id].confirmed || SomeWillConfirm(t.runs, id))
    {
      SomeAfterHandle(s.runs, k, id);
    }
    assert s.runs[k].remaining[0].0 in s.table;
    forall j, i | 0 <= j < |t.runs| && 0 <= i < |t.runs[j].remaining|
      ensures t.runs[j].remaining[i].0 in t.table
    {
      assert j == k ==> t.runs[j].remaining[i] == s.runs[k].remaining[i + 1];
      assert j != k ==> t.runs[j] == s.runs[j];
    }
  }

  lemma {:induction false} AheadAfterArrive(s: State, u: Table, id: nat, d: Deposit)
    requires Ahead(s, u) && Enabled(s, Arrive(id, d))
    ensures Ahead(Apply(s, Arrive(id, d)), u[id := d])
  {
    assert !SomeWillConfirm(s.runs, id);
  }

  lemma {:induction false} SameKeys(s: State, u: Table)
    requires Ahead(s, u)
    ensures u.Keys == s.table.Keys
  {
  }

  lemma {:induction false} StartAhead(t: Table)
    ensures Ahead(State(t, []), t)
  {
  }

  lemma {:induction false} SequentialIsAhead(t: Table, steps: seq<Step>)
    requires Legal(t, steps)
    ensures Ahead(Run(t, steps), Sequential(t, steps))
  {
    hide Ahead, Lists;
    if steps == [] {
      StartAhead(t);
    } else {
      var p := steps[..|steps| - 1];
      var s, u := Run(t, p), Sequential(t, p);
      SequentialIsAhead(t, p);
      match steps[|steps| - 1] {
        case Arrive(id, d) =>
          SameKeys(s, u);
          AheadAfterArrive(s, u, id, d);
        case List(job, listed) => AheadAfterList(s, u, job, listed);
        case Handle(k) => AheadAfterHandle(s, u, k);
      }
    }
  }

  ghost predicate AllFinished(s: State) {
    forall k :: 0 <= k < |s.runs| ==> s.runs[k].remaining == []
  }

  /**
   * However several checkers interleave, with leaders that overlap and deposits that arrive in between, once all have
   * finished the table is that of the check runs done one after the other, each at once when it lists.
   */
  lemma {:induction false} OverlappingChecksAreSequential(t: Table, steps: seq<Step>)
    requires Legal(t, steps) && AllFinished(Run(t, steps))
    ensures Run(t, steps).table == Sequential(t, steps)
  {
    SequentialIsAhead(t, steps);
    var s, u := Run(t, steps), Sequential(t, steps);
    forall id | id in u
      ensures u[id] == s.table[id]
    {
      assert !SomeWillConfirm(s.runs, id);
    }
  }

  // ---- Confirmations are justified and final ----

  /** The height read on the deposit's own chain, 0 for a failed read, is 6 (BTC) or 12 (ETH) above the deposit. */
  ghost predicate LooksDeep(job: Job, d: Deposit) {
    if d.chain == BTC then (if job.btc.Some? then job.btc.value else 0) >= d.height + 6
    else (if job.eth.Some? then job.eth.value else 0) >= d.height + 12
  }

  /**
   * What a check does to a row: it turns a BTC row confirmed if and only if it was not, its update is served, and the
   * Bitcoin height read, or 0, is at least 6 above it; an ETH row likewise with the Ethereum height and 12. Nothing
   * else changes.
   */
  lemma {:induction false} CheckExactly(t: Table, job: Job, id: nat)
    requires id in t
    ensures var u := CheckAtOnce(t, job);
            && u.Keys == t.Keys && u[id].chain == t[id].chain && u[id].height == t[id].height
            && (t[id].confirmed ==> u[id].confirmed)
            && (t[id].chain == BTC && !t[id].confirmed ==>
                  (u[id].confirmed <==>
                     job.served(id) && (if job.btc.Some? then job.btc.value else 0) >= t[id].height + 6))
            && (t[id].chain == ETH && !t[id].confirmed ==>
                  (u[id].confirmed <==>
                     job.served(id) && (if job.eth.Some? then job.eth.value else 0) >= t[id].height + 12))
  {
  }

  /** Some check run among the steps saw its chain deep enough above the deposit. */
  ghost predicate SawDeep(steps: seq<Step>, d: Deposit) {
    exists k :: 0 <= k < |steps| && steps[k].List? && LooksDeep(steps[k].job, d)
  }

  /** The row was confirmed to begin with, or inserted as confirmed. */
  ghost predicate BornConfirmed(t: Table, steps: seq<Step>, id: nat) {
    || (id in t && t[id].confirmed)
    || exists k :: 0 <= k < |steps| && steps[k].Arrive? && steps[k].id == id && steps[k].deposit.confirmed
  }

  lemma {:induction false} SequentialJustified(t: Table, steps: seq<Step>, id: nat)
    requires id in Sequential(t, steps) && Sequential(t, steps)[id].confirmed
    ensures BornConfirmed(t, steps, id) || SawDeep(steps, Sequential(t, steps)[id])
  {
    if steps != [] {
      var n := |steps| - 1;
      var u := Sequential(t, steps[..n]);
      if id in u && u[id].confirmed {
        SequentialJustified(t, steps[..n], id);
        if k :| 0 <= k < n && steps[..n][k].List? && LooksDeep(steps[..n][k].job, u[id]) {
          assert steps[k].List? && LooksDeep(steps[k].job, u[id]);
        }
      } else {
        if steps[n].List? {
          CheckExactly(u, steps[n].job, id);
          assert LooksDeep(steps[n].job, Sequential(t, steps)[id]);
        }
      }
    }
  }

  /**
   * A deposit is confirmed only if some check run saw a height at least 6 (BTC) or 12 (ETH) above it; a failed height
   * call counts as height 0.
   */
  lemma {:induction false} ConfirmedOnlyIfDeep(t: Table, steps: seq<Step>, id: nat)
    requires Legal(t, steps) && id in Run(t, steps).table && Run(t, steps).table[id].confirmed
    ensures BornConfirmed(t, steps, id) || SawDeep(steps, Run(t, steps).table[id])
  {
    SequentialIsAhead(t, steps);
    SequentialJustified(t, steps, id);
  }

  /** No step takes a row away, changes its chain or height, or takes a confirmation back. */
  lemma {:induction false} ConfirmationIsFinal(t: Table, steps: seq<Step>, n: nat, id: nat)
    requires n <= |steps| && id in Run(t, steps[..n]).table
    ensures var d := Run(t, steps[..n]).table[id];
            && id in Run(t, steps).table
            && Run(t, steps).table[id] == d.(confirmed := Run(t, steps).table[id].confirmed)
            && (d.confirmed ==> Run(t, steps).table[id].confirmed)
    decreases |steps|
  {
    if n < |steps| {
      var p := steps[..|steps| - 1];
      assert p[..n] == steps[..n];
      ConfirmationIsFinal(t, p, n, id);
    } else {
      assert steps[..n] == steps;
    }
  }
}

/** Locks and the leader key on etcd leases: grant, create-if-absent, keep-alive, revoke and expiry in any order. */
module LeaseLocking {
  import opened Basics

  type Key = string
  type LeaseId = nat

  datatype Lease = Lease(ttl: real, deadline: real)

  /** Where an attempt on a key stands, from its client's point of view. */
  datatype Phase = Granted | Holding(turn: nat) | Revoking | Closed

  /** One call of Acquire, or one campaign. A lease is made for each, so its id names the session. */
  datatype Session = Session(key: Key, phase: Phase, ttl: real, grantedAt: real, renewedAt: real)

  /** The server's clock, leases and keys; the clients' sessions; the next lease id and the next turn to hold. */
  datatype State = State(now: real, leases: map<LeaseId, Lease>, owner: map<Key, LeaseId>,
                         sessions: map<LeaseId, Session>, next: LeaseId, turn: nat)

  const START := State(0.0, map[], map[], map[], 0, 0)

  /**
   * Tick: time passes. Grant: a lease for a session. GrantLost: a lease whose grant the client never learns of.
   * Txn: the create-if-absent transaction runs, and its reply arrives or not. TxnLost: it never runs.
   * KeepAlive: a renewal. Revoke: the client ends its session, and the server gets to hear of it or not.
   * Expire: the server drops a lease that is overdue, sooner or later.
   */
  datatype Step =
    | Tick(span: real)
    | Grant(key: Key, ttl: real)
    | GrantLost(ttl: real)
    | Txn(id: LeaseId, replied: bool)
    | TxnLost(id: LeaseId)
    | KeepAlive(id: LeaseId)
    | Revoke(id: LeaseId, served: bool)
    | Expire(id: LeaseId)

  predicate Enabled(s: State, step: Step) {
    match step
    case Tick(span) => span >= 0.0
    case Grant(_, ttl) => ttl > 0.0
    case GrantLost(ttl) => ttl > 0.0
    case Txn(id, _) => id in s.sessions && s.sessions[id].phase == Granted
    case TxnLost(id) => id in s.sessions && s.sessions[id].phase == Granted
    case KeepAlive(id) => id in s.sessions && s.sessions[id].phase.Holding? && id in s.leases
    case Revoke(id, _) => id in s.sessions && (s.sessions[id].phase.Holding? || s.sessions[id].phase == Revoking)
    case Expire(id) => id in s.leases && s.now >= s.leases[id].deadline
  }

  /** The server drops a lease with all its keys. */
  function Drop(s: State, id: LeaseId): State {
    s.(leases := s.leases - {id}, owner := map k | k in s.owner && s.owner[k] != id :: s.owner[k])
  }

  function Enter(s: State, id: LeaseId, phase: Phase): State
    requires id in s.sessions
  {
    s.(sessions := s.sessions[id := s.sessions[id].(phase := phase)])
  }

  /** A step that is not enabled does nothing. */
  function Apply(s: State, step: Step): State {
    if !Enabled(s, step) then s else
    match step
    case Tick(span) => s.(now := s.now + span)
    case Grant(key, ttl) =>
      s.(leases := s.leases[s.next := Lease(ttl, s.now + ttl)],
         sessions := s.sessions[s.next := Session(key, Granted, ttl, s.now, s.now)], next := s.next + 1)
    case GrantLost(ttl) => s.(leases := s.leases[s.next := Lease(ttl, s.now + ttl)], next := s.next + 1)
    case Txn(id, replied) =>
      var key := s.sessions[id].key;
      if key !in s.owner && id in s.leases then
        var put := s.(owner := s.owner[key := id], turn := s.turn + 1);
        Enter(put, id, if replied then Holding(s.turn) else Revoking)
      else Enter(s, id, Revoking)
    case TxnLost(id) => Enter(s, id, Revoking)
    case KeepAlive(id) =>
      s.(leases := s.leases[id := Lease(s.leases[id].ttl, s.now + s.leases[id].ttl)],
         sessions := s.sessions[id := s.sessions[id].(renewedAt := s.now)])
    case Revoke(id, served) =>
      var t := if served then Drop(s, id) else s;
      Enter(t, id, Closed)
    case Expire(id) => Drop(s, id)
  }

  function Run(steps: seq<Step>): State {
    if steps == [] then START else Apply(Run(steps[..|steps| - 1]), steps[|steps| - 1])
  }

  // ---- The lock, as its clients call it ----

  /** What the network and the server let happen to one Acquire. */
  datatype Luck = Luck(granted: bool, ran: bool, replied: bool, revoked: bool)

  function AcquireSteps(s: State, key: Key, ttl: real, luck: Luck): seq<Step> {
    var id := s.next;
    if !luck.granted then []
    else
      var grant, txn := Grant(key, ttl), if luck.ran then Txn(id, luck.replied) else TxnLost(id);
      if luck.ran && luck.replied && key !in s.owner then [grant, txn]
      else [grant, txn, Revoke(id, luck.revoked)]
  }

  function ApplyAll(s: State, steps: seq<Step>): State
    decreases |steps|
  {
    if steps == [] then s else ApplyAll(Apply(s, steps[0]), steps[1..])
  }

  lemma {:induction false} InOrder(s: State, a: Step, b: Step, c: Step)
    ensures ApplyAll(s, []) == s
    ensures ApplyAll(s, [a, b]) == Apply(Apply(s, a), b)
    ensures ApplyAll(s, [a, b, c]) == Apply(Apply(Apply(s, a), b), c)
  {
    hide Apply;
    var s1, s2 := Apply(s, a), Apply(Apply(s, a), b);
    assert [a, b, c][1..] == [b, c] && [a, b][1..] == [b] && [b, c][1..] == [c] && [b][1..] == [] && [c][1..] == [];
    assert ApplyAll(s2, [c]) == Apply(s2, c);
    assert ApplyAll(s1, [b, c]) == ApplyAll(s2, [c]);
    assert ApplyAll(s1, [b]) == s2;
  }

  class Coordinator {
    var now: real
    var leases: map<LeaseId, Lease>
    var owner: map<Key, LeaseId>
    var sessions: map<LeaseId, Session>
    var next: LeaseId
    var turn: nat

    ghost function Now(): State
      reads this
    {
      State(now, leases, owner, sessions, next, turn)
    }

    constructor ()
      ensures Now() == START
    {
      now, leases, owner, sessions, next, turn := 0.0, map[], map[], map[], 0, 0;
    }

    method GrantLease(key: Key, ttl: real) returns (id: LeaseId)
      requires ttl > 0.0
      modifies this
      ensures id == old(next) && Now() == Apply(old(Now()), Grant(key, ttl))
    {
      id := next;
      leases := leases[id := Lease(ttl, now + ttl)];
      sessions := sessions[id := Session(key, Granted, ttl, now, now)];
      next := next + 1;
    }

    /** Create-revision 0 means that the key is absent. */
    method CreateIfAbsent(id: LeaseId, replied: bool) returns (succeeded: bool)
      requires Enabled(Now(), Txn(id, replied))
      modifies this
      ensures Now() == Apply(old(Now()), Txn(id, replied))
      ensures succeeded <==> old(sessions)[id].key !in old(owner) && id in old(leases)
    {
      var key := sessions[id].key;
      succeeded := key !in owner && id in leases;
      if succeeded {
        owner := owner[key := id];
        sessions := sessions[id := sessions[id].(phase := if replied then Holding(turn) else Revoking)];
        turn := turn + 1;
      } else {
        sessions := sessions[id := sessions[id].(phase := Revoking)];
      }
    }

    method RevokeLease(id: LeaseId, served: bool)
      requires Enabled(Now(), Revoke(id, served))
      modifies this
      ensures Now() == Apply(old(Now()), Revoke(id, served))
    {
      if served {
        leases := leases - {id};
        owner := map k | k in owner && owner[k] != id :: owner[k];
      }
      sessions := sessions[id := sessions[id].(phase := Closed)];
    }

    /** lock.Acquire; AcquireTakesFreeKey says what these steps come to. */
    method Acquire(key: Key, ttl: real, luck: Luck) returns (lock: Option<LeaseId>)
      requires ttl > 0.0
      modifies this
      ensures Now() == ApplyAll(old(Now()), AcquireSteps(old(Now()), key, ttl, luck))
      ensures lock == if luck.granted && luck.ran && luck.replied && key !in old(owner) then Some(old(next)) else None
    {
      if !luck.granted {
        return None;
      }
      var id := GrantLease(key, ttl);
      ghost var txn := if luck.ran then Txn(id, luck.replied) else TxnLost(id);
      InOrder(old(Now()), Grant(key, ttl), txn, Revoke(id, luck.revoked));
      if !luck.ran {
        sessions := sessions[id := sessions[id].(phase := Revoking)];
        assert Now() == Apply(Apply(old(Now()), Grant(key, ttl)), txn);
        RevokeLease(id, luck.revoked);
        return None;
      }
      var succeeded := CreateIfAbsent(id, luck.replied);
      if !luck.replied || !succeeded {
        RevokeLease(id, luck.revoked);
        return None;
      }
      return Some(id);
    }

    /** lock.Release: whatever has become of the lease, no other lease and no other owner is touched. */
    method Release(id: LeaseId, served: bool)
      requires id in sessions && sessions[id].phase.Holding?
      modifies this
      ensures Now() == Apply(old(Now()), Revoke(id, served))
      ensures forall other :: other != id ==> (other in leases <==> other in old(leases))
      ensures forall k :: k in old(owner) && old(owner)[k] != id ==> k in owner && owner[k] == old(owner)[k]
    {
      RevokeLease(id, served);
    }
  }

  // ---- What every interleaving keeps ----

  ghost predicate SessionInv(s: State, id: LeaseId)
    requires id in s.sessions
  {
    var x := s.sessions[id];
    && id < s.next
    && x.grantedAt <= x.renewedAt <= s.now
    && (id in s.leases ==> s.leases[id] == Lease(x.ttl, x.renewedAt + x.ttl))
    && (x.phase.Holding? ==> x.phase.turn < s.turn)
    && (x.phase.Holding? && id in s.leases ==> x.key in s.owner && s.owner[x.key] == id)
    && (id !in s.leases && x.phase != Closed ==> s.now >= x.renewedAt + x.ttl)
  }

  /** Of two holders of a key, the one that came first has lost its lease. */
  ghost predicate FirstIsOver(s: State, a: LeaseId, b: LeaseId)
    requires a in s.sessions && b in s.sessions
  {
    var x, y := s.sessions[a], s.sessions[b];
    x.phase.Holding? && y.phase.Holding? && x.key == y.key && x.phase.turn < y.phase.turn ==> a !in s.leases
  }

  ghost predicate DistinctTurns(s: State, a: LeaseId, b: LeaseId)
    requires a in s.sessions && b in s.sessions
  {
    var x, y := s.sessions[a], s.sessions[b];
    a != b && x.phase.Holding? && y.phase.Holding? ==> x.phase.turn != y.phase.turn
  }

  ghost predicate LeasesInv(s: State) {
    && (forall id :: id in s.leases ==> id < s.next)
    && (forall k :: k in s.owner ==>
          s.owner[k] in s.leases && s.owner[k] in s.sessions && s.sessions[s.owner[k]].key == k)
  }

  ghost predicate Inv(s: State) {
    && LeasesInv(s)
    && (forall id :: id in s.sessions ==> SessionInv(s, id))
    && (forall a, b :: a in s.sessions && b in s.sessions ==> FirstIsOver(s, a, b) && DistinctTurns(s, a, b))
  }

  lemma {:induction false} SessionKept(s: State, step: Step, id: LeaseId)
    requires Inv(s) && Enabled(s, step) && id in Apply(s, step).sessions
    ensures SessionInv(Apply(s, step), id)
  {
    assert id in s.sessions ==> SessionInv(s, id);
    match step
    case Txn(other, _) => assert SessionInv(s, other);
    case Revoke(other, _) => assert SessionInv(s, other);
    case Expire(other) => assert other in s.sessions ==> SessionInv(s, other);
    case _ =>
  }

  lemma {:induction false} PairKept(s: State, step: Step, a: LeaseId, b: LeaseId)
    requires Inv(s) && Enabled(s, step) && a in Apply(s, step).sessions && b in Apply(s, step).sessions
    ensures FirstIsOver(Apply(s, step), a, b) && DistinctTurns(Apply(s, step), a, b)
  {
    if a in s.sessions && b in s.sessions {
      assert FirstIsOver(s, a, b) && DistinctTurns(s, a, b);
      assert SessionInv(s, a) && SessionInv(s, b);
    }
  }

  lemma {:induction false} LeasesKept(s: State, step: Step)
    requires Inv(s) && Enabled(s, step)
    ensures LeasesInv(Apply(s, step))
  {
    match step
    case Txn(id, _) => assert SessionInv(s, id);
    case KeepAlive(id) => assert SessionInv(s, id);
    case _ =>
  }

  lemma {:induction false} StepKeepsInv(s: State, step: Step)
    requires Inv(s) && Enabled(s, step)
    ensures Inv(Apply(s, step))
  {
    hide Apply, Enabled, SessionInv, FirstIsOver, DistinctTurns;
    LeasesKept(s, step);
    forall id | id in Apply(s, step).sessions
      ensures SessionInv(Apply(s, step), id)
    {
      SessionKept(s, step, id);
    }
    forall a, b | a in Apply(s, step).sessions && b in Apply(s, step).sessions
      ensures FirstIsOver(Apply(s, step), a, b) && DistinctTurns(Apply(s, step), a, b)
    {
      PairKept(s, step, a, b);
    }
  }

  ghost predicate Legal(steps: seq<Step>) {
    steps == [] || (Legal(steps[..|steps| - 1]) && Enabled(Run(steps[..|steps| - 1]), steps[|steps| - 1]))
  }

  lemma {:induction false} RunKeepsInv(steps: seq<Step>)
    requires Legal(steps)
    ensures Inv(Run(steps))
  {
    hide Apply, Enabled;
    if steps != [] {
      RunKeepsInv(steps[..|steps| - 1]);
      StepKeepsInv(Run(steps[..|steps| - 1]), steps[|steps| - 1]);
    }
  }

  lemma {:induction false} AfterTxn(s: State, key: Key, ttl: real, txn: Step)
    requires ttl > 0.0 && (txn == TxnLost(s.next) || (txn.Txn? && txn.id == s.next))
    ensures var t := Apply(Apply(s, Grant(key, ttl)), txn);
            var wins := txn.Txn? && key !in s.owner;
            && t.leases == s.leases[s.next := Lease(ttl, s.now + ttl)]
            && t.owner == (if wins then s.owner[key := s.next] else s.owner)
            && s.next in t.sessions
            && ((wins && txn.replied) || t.sessions[s.next].phase == Revoking)
  {
    assert Apply(s, Grant(key, ttl)).sessions[s.next].phase == Granted;
  }

  lemma {:induction false} AfterRevoke(s: State, id: LeaseId, served: bool)
    requires id in s.sessions && s.sessions[id].phase == Revoking
    ensures var t := Apply(s, Revoke(id, served));
            t == if served then Enter(Drop(s, id), id, Closed) else Enter(s, id, Closed)
  {
  }

  /**
   * What an Acquire comes to. When it gets the lock, the key was free and is held under a fresh lease, and no other
   * key or lease has changed. When it fails, every key has the owner it had, except that a lost reply whose revoke is
   * lost too leaves the key with the abandoned lease; and no lease is left behind once the revoke is served.
   */
  lemma {:induction false} AcquireTakesFreeKey(s: State, key: Key, ttl: real, luck: Luck)
    requires Inv(s) && ttl > 0.0
    ensures var t := ApplyAll(s, AcquireSteps(s, key, ttl, luck));
            var free := key !in s.owner;
            var locked := luck.granted && luck.ran && luck.replied && free;
            && (locked ==> t.owner == s.owner[key := s.next] && t.leases == s.leases[s.next := Lease(ttl, s.now + ttl)])
            && (!locked && luck.granted && luck.ran && free && !luck.revoked ==> t.owner == s.owner[key := s.next])
            && (!locked && !(luck.granted && luck.ran && free && !luck.revoked) ==> t.owner == s.owner)
            && (!locked && (luck.granted ==> luck.revoked) ==> t.leases == s.leases)
  {
    hide Apply;
    var id, txn := s.next, if luck.ran then Txn(s.next, luck.replied) else TxnLost(s.next);
    AfterTxn(s, key, ttl, txn);
    if !(luck.ran && luck.replied && key !in s.owner) {
      AfterRevoke(Apply(Apply(s, Grant(key, ttl)), txn), id, luck.revoked);
    }
    InOrder(s, Grant(key, ttl), txn, Revoke(id, luck.revoked));
    assert id !in s.leases && forall k :: k in s.owner ==> s.owner[k] != id;
    assert s.leases[id := Lease(ttl, s.now + ttl)] - {id} == s.leases;
  }

  ghost predicate Holds(s: State, id: LeaseId, key: Key) {
    id in s.sessions && s.sessions[id].phase.Holding? && s.sessions[id].key == key
  }

  /**
   * Mutual exclusion. Two sessions hold a key at the same time only if one of them entered later, and then the one that
   * entered first has lost its lease and has gone on for a full TTL since its last renewal. So at most one holder of a
   * key has a live lease, and that one owns the key.
   */
  lemma {:induction false} OverlapOnlyAfterTtl(steps: seq<Step>, key: Key, a: LeaseId, b: LeaseId)
    requires Legal(steps) && a != b && Holds(Run(steps), a, key) && Holds(Run(steps), b, key)
    ensures var s := Run(steps);
            var first := if s.sessions[a].phase.turn < s.sessions[b].phase.turn then a else b;
            && s.sessions[a].phase.turn != s.sessions[b].phase.turn
            && first !in s.leases
            && s.now >= s.sessions[first].renewedAt + s.sessions[first].ttl
  {
    RunKeepsInv(steps);
    var s := Run(steps);
    assert SessionInv(s, a) && SessionInv(s, b);
    assert FirstIsOver(s, a, b) && FirstIsOver(s, b, a) && DistinctTurns(s, a, b);
  }

  lemma {:induction false} LiveHolderOwns(steps: seq<Step>, key: Key, id: LeaseId)
    requires Legal(steps) && Holds(Run(steps), id, key)
    ensures id in Run(steps).leases <==> key in Run(steps).owner && Run(steps).owner[key] == id
  {
    RunKeepsInv(steps);
    assert SessionInv(Run(steps), id);
  }

  ghost predicate NeverRenewed(steps: seq<Step>, id: LeaseId) {
    forall i :: 0 <= i < |steps| ==> steps[i] != KeepAlive(id)
  }

  /** A lock is never renewed, so its TTL counts from its grant. */
  lemma {:induction false} LocksCountFromGrant(steps: seq<Step>, id: LeaseId)
    requires Legal(steps) && NeverRenewed(steps, id) && id in Run(steps).sessions
    ensures Run(steps).sessions[id].renewedAt == Run(steps).sessions[id].grantedAt
  {
    if steps != [] {
      var n := |steps| - 1;
      if id in Run(steps[..n]).sessions {
        LocksCountFromGrant(steps[..n], id);
      }
      assert steps[n] != KeepAlive(id);
    }
  }

  /** A session that has lost its lease changes nothing on the server when it is released at last. */
  lemma {:induction false} LateReleaseTouchesNothing(steps: seq<Step>, id: LeaseId, served: bool)
    requires Legal(steps) && Enabled(Run(steps), Revoke(id, served)) && id !in Run(steps).leases
    ensures Apply(Run(steps), Revoke(id, served)).leases == Run(steps).leases
    ensures Apply(Run(steps), Revoke(id, served)).owner == Run(steps).owner
  {
    RunKeepsInv(steps);
    var s := Run(steps);
    assert forall k :: k in s.owner ==> s.owner[k] != id;
  }

  lemma {:induction false} WaitFrees(s: State, key: Key) returns (wait: real)
    requires Inv(s) && key in s.owner
    ensures s.owner[key] in s.leases
    ensures wait == if s.leases[s.owner[key]].deadline > s.now then s.leases[s.owner[key]].deadline - s.now else 0.0
    ensures Enabled(s, Tick(wait)) && Enabled(Apply(s, Tick(wait)), Expire(s.owner[key]))
    ensures key !in Apply(Apply(s, Tick(wait)), Expire(s.owner[key])).owner
  {
    var id := s.owner[key];
    wait := if s.leases[id].deadline > s.now then s.leases[id].deadline - s.now else 0.0;
  }

  /** No deadlock: however a key came to be owned, letting its lease run out frees it. */
  lemma {:induction false} EveryKeyComesFree(steps: seq<Step>, key: Key)
    requires Legal(steps) && key in Run(steps).owner
    ensures var s := Run(steps);
            var id := s.owner[key];
            && id in s.leases
            && var wait := if s.leases[id].deadline > s.now then s.leases[id].deadline - s.now else 0.0;
               Legal(steps + [Tick(wait)] + [Expire(id)]) && key !in Run(steps + [Tick(wait)] + [Expire(id)]).owner
  {
    hide Apply, Enabled, Inv;
    RunKeepsInv(steps);
    var s := Run(steps);
    var wait := WaitFrees(s, key);
    var waited := steps + [Tick(wait)];
    assert waited[..|steps|] == steps;
    assert (waited + [Expire(s.owner[key])])[..|waited|] == waited;
  }

  // ---- Holding, keeping and giving back ----

  lemma {:induction false} ReleasedKey(s: State, key: Key, id: LeaseId)
    requires Inv(s) && Holds(s, id, key) && id in s.leases
    ensures Enabled(s, Revoke(id, true))
    ensures var t := Apply(s, Revoke(id, true));
            && id !in t.leases && key !in t.owner
            && (forall other :: other in s.leases && other != id ==>
                  other in t.leases && t.leases[other] == s.leases[other])
            && (forall other :: other in t.leases ==> other in s.leases && other != id)
            && (forall k :: k in s.owner && k != key ==> k in t.owner && t.owner[k] == s.owner[k])
            && (forall k :: k in t.owner ==> k in s.owner && k != key)
            && t.sessions[id].phase == Closed
  {
    assert SessionInv(s, id);
    forall k | k in s.owner && k != key
      ensures s.owner[k] != id
    {
      assert s.sessions[s.owner[k]].key == k;
    }
  }

  lemma {:induction false} AcquiredHolds(s: State, key: Key, ttl: real)
    requires ttl > 0.0 && key !in s.owner
    ensures Holds(ApplyAll(s, AcquireSteps(s, key, ttl, Luck(true, true, true, true))), s.next, key)
  {
    var grant, txn := Grant(key, ttl), Txn(s.next, true);
    InOrder(s, grant, txn, txn);
    assert Apply(s, grant).sessions[s.next] == Session(key, Granted, ttl, s.now, s.now);
  }

  /**
   * Releasing a held lock frees it. After a served revoke by the live holder of a key, in any run, the lease is gone,
   * the key has no owner, every other lease and key is as before, the session is closed, and the next Acquire of the
   * key whose calls are all answered gets it.
   */
  lemma {:induction false} ReleaseFreesTheKey(steps: seq<Step>, key: Key, id: LeaseId, ttl: real)
    requires Legal(steps) && Holds(Run(steps), id, key) && id in Run(steps).leases && ttl > 0.0
    ensures var s, t := Run(steps), Apply(Run(steps), Revoke(id, true));
            && id !in t.leases && key !in t.owner
            && (forall other :: other in s.leases && other != id ==>
                  other in t.leases && t.leases[other] == s.leases[other])
            && (forall other :: other in t.leases ==> other in s.leases && other != id)
            && (forall k :: k in s.owner && k != key ==> k in t.owner && t.owner[k] == s.owner[k])
            && (forall k :: k in t.owner ==> k in s.owner && k != key)
            && t.sessions[id].phase == Closed
            && var u := ApplyAll(t, AcquireSteps(t, key, ttl, Luck(true, true, true, true)));
               key in u.owner && u.owner[key] == t.next && Holds(u, t.next, key) && t.next in u.leases
  {
    var s, t := Run(steps), Apply(Run(steps), Revoke(id, true));
    RunKeepsInv(steps);
    ReleasedKey(s, key, id);
    StepKeepsInv(s, Revoke(id, true));
    AcquireTakesFreeKey(t, key, ttl, Luck(true, true, true, true));
    AcquiredHolds(t, key, ttl);
  }

  /** A renewal gives the holder's lease its whole TTL again, counted from now, and touches nothing else. */
  lemma {:induction false} KeepAliveExactly(steps: seq<Step>, id: LeaseId)
    requires Legal(steps) && Enabled(Run(steps), KeepAlive(id))
    ensures var s, t := Run(steps), Apply(Run(steps), KeepAlive(id));
            && id in s.leases && s.sessions[id].phase.Holding?
            && t.leases == s.leases[id := Lease(s.sessions[id].ttl, s.now + s.sessions[id].ttl)]
            && t.owner == s.owner && t.now == s.now
            && t.sessions == s.sessions[id := s.sessions[id].(renewedAt := s.now)]
  {
    RunKeepsInv(steps);
    assert SessionInv(Run(steps), id);
  }

  /** A lease is dropped by the server only, and any time, after its deadline; with it go its keys and nothing else. */
  lemma {:induction false} ExpiryExactly(s: State, id: LeaseId)
    ensures Enabled(s, Expire(id)) <==> id in s.leases && s.leases[id].deadline <= s.now
    ensures Enabled(s, Expire(id)) ==>
              var t := Apply(s, Expire(id));
              && t.leases == s.leases - {id} && t.sessions == s.sessions && t.now == s.now
              && (forall k :: k in t.owner <==> k in s.owner && s.owner[k] != id)
              && (forall k :: k in t.owner ==> t.owner[k] == s.owner[k])
  {
  }
}

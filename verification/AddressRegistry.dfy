/** The in-memory address registry against the deposit_addresses table, over requests and restarts. */
module AddressRegistering {
  import opened Basics
  import opened Deposits
  import opened Addresses

  class AddressRegistry {
    var data: Registry

    constructor ()
      ensures data == map[]
    {
      data := map[];
    }

    method Register(address: Address, userID: UserId)
      modifies this
      ensures data == old(data)[address := userID]
    {
      data := data[address := userID];
    }

    method Lookup(address: Address) returns (r: Option<UserId>)
      ensures r == if address in data then Some(data[address]) else None
    {
      if address in data {
        return Some(data[address]);
      }
      return None;
    }
  }

  /** The registry keeps the last user of an address, the table the first. */
  datatype State = State(registry: Registry, table: Registry)

  const EMPTY := State(map[], map[])

  /** A request for an address, whose insert may fail; a restart, whose load of the table may fail. */
  datatype Step = Generate(user: UserId, chain: Chain, saved: bool) | Restart(loaded: bool)

  function Apply(w: Wallet, s: State, step: Step): State {
    match step
    case Generate(user, chain, saved) =>
      (match AddressOf(w, chain, user)
       case None => s
       case Some(a) => State(s.registry[a := user], if saved && a !in s.table then s.table[a := user] else s.table))
    case Restart(loaded) => State(if loaded then s.table else map[], s.table)
  }

  function Run(w: Wallet, steps: seq<Step>): State {
    if steps == [] then EMPTY else Apply(w, Run(w, steps[..|steps| - 1]), steps[|steps| - 1])
  }

  class WalletService<K> {
    const master: K
    const child: (K, uint32) -> Option<K>
    const encode: (Chain, K) -> Option<Address>
    var registry: AddressRegistry
    var table: Registry

    ghost function Now(): State
      reads this, registry
    {
      State(registry.data, table)
    }

    ghost function TheWallet(): Wallet {
      WalletOf(master, child, encode)
    }

    constructor (master: K, child: (K, uint32) -> Option<K>, encode: (Chain, K) -> Option<Address>)
      ensures TheWallet() == WalletOf(master, child, encode) && Now() == EMPTY && fresh(registry)
    {
      this.master, this.child, this.encode := master, child, encode;
      registry := new AddressRegistry();
      table := map[];
    }

    /** GenerateDepositAddress of either chain's wallet. */
    method GenerateDepositAddress(userID: UserId, chain: Chain, saved: bool) returns (address: Option<Address>)
      modifies this, registry
      ensures registry == old(registry) && address == AddressOf(TheWallet(), chain, userID)
      ensures Now() == Apply(TheWallet(), old(Now()), Generate(userID, chain, saved))
    {
      hide HdPaths.Derived, HdPaths.Parsed, Index;
      var index := UserIndex(userID);
      var path := "m/44'/" + HdPaths.Decimal(CoinType(chain)) + "'/0'/0/" + HdPaths.Decimal(index);
      var childKey := HdPaths.DerivePath(master, path, child);
      if childKey.None? {
        return None;
      }
      address := encode(chain, childKey.value);
      if address.None? {
        return;
      }
      registry.Register(address.value, userID);
      if saved && address.value !in table {
        table := table[address.value := userID];
      }
    }

    /** The recovery at the start of main: a new registry, filled row by row in any order. */
    method Recover(loaded: bool)
      modifies this
      ensures fresh(registry) && Now() == Apply(TheWallet(), old(Now()), Restart(loaded))
    {
      registry := new AddressRegistry();
      if loaded {
        var todo := table.Keys;
        while todo != {}
          invariant fresh(registry) && table == old(table) && todo <= table.Keys
          invariant registry.data == map a | a in table && a !in todo :: table[a]
          decreases |todo|
        {
          var a :| a in todo;
          todo := todo - {a};
          registry.Register(a, table[a]);
        }
        assert registry.data == table;
      }
    }
  }

  /**
   * What a request does: if the wallet has an address for the user's path on the chain, the registry files that
   * address under the user, whoever had it before, and the table does so if it has no user for it and the insert is
   * served. Nothing else changes, and nothing at all if the wallet refuses.
   */
  lemma {:induction false} GenerateExactly(w: Wallet, s: State, user: UserId, chain: Chain, saved: bool, a: Address)
    ensures var coin, index := HdPaths.Decimal(if chain == BTC then 0 else 60), HdPaths.Decimal(Index(user));
            var path := "m/44'/" + coin + "'/0'/0/" + index;
            var t, given := Apply(w, s, Generate(user, chain, saved)), w(chain, HdPaths.Parsed(path));
            && AddressOf(w, chain, user) == given
            && (given == None ==> t == s)
            && (given == Some(a) ==> t.registry == s.registry[a := user])
            && (given == Some(a) ==> t.table == if saved && a !in s.table then s.table[a := user] else s.table)
  {
    hide HdPaths.Parsed, HdPaths.Decimal, Index;
  }

  /** What a restart does: the registry is the table, or empty when the table cannot be read. */
  lemma {:induction false} RestartExactly(w: Wallet, s: State, loaded: bool)
    ensures Apply(w, s, Restart(loaded)) == State(if loaded then s.table else map[], s.table)
  {
  }

  // ---- When the two agree ----

  /** The user who asked at a step and the address that was given. */
  ghost predicate Asked(w: Wallet, step: Step, user: UserId, a: Address) {
    step.Generate? && step.user == user && AddressOf(w, step.chain, user) == Some(a)
  }

  /** Nobody is given an address that another user has. */
  ghost predicate NobodyShares(w: Wallet, steps: seq<Step>) {
    forall i, j, u, v, a ::
      0 <= i < |steps| && 0 <= j < |steps| && Asked(w, steps[i], u, a) && Asked(w, steps[j], v, a) ==> u == v
  }

  ghost predicate AllServed(steps: seq<Step>) {
    forall i :: 0 <= i < |steps| ==> if steps[i].Generate? then steps[i].saved else steps[i].loaded
  }

  /** The registry and the table hold the same after every step. */
  ghost predicate AlwaysAgree(w: Wallet, steps: seq<Step>) {
    Run(w, steps).registry == Run(w, steps).table && (steps == [] || AlwaysAgree(w, steps[..|steps| - 1]))
  }

  /** With every insert served, the table holds exactly the addresses given, each with a user who asked for it. */
  lemma {:induction false} TableRows(w: Wallet, steps: seq<Step>, a: Address)
    requires AllServed(steps)
    ensures a in Run(w, steps).table <==> exists i, u :: 0 <= i < |steps| && Asked(w, steps[i], u, a)
    ensures a in Run(w, steps).table ==> exists i :: 0 <= i < |steps| && Asked(w, steps[i], Run(w, steps).table[a], a)
  {
    hide AddressOf;
    if steps != [] {
      var n := |steps| - 1;
      var p, e := steps[..n], steps[n];
      TableRows(w, p, a);
      if a in Run(w, p).table {
        var i :| 0 <= i < n && Asked(w, p[i], Run(w, p).table[a], a);
        assert Asked(w, steps[i], Run(w, steps).table[a], a);
      } else if e.Generate? && AddressOf(w, e.chain, e.user) == Some(a) {
        assert Asked(w, steps[n], e.user, a);
      }
      if i, u :| 0 <= i < |steps| && Asked(w, steps[i], u, a) {
        assert i < n ==> Asked(w, p[i], u, a);
      }
    }
  }

  /** While the two agree, everybody who asked for an address is the one it is filed under. */
  lemma {:induction false} FiledUnderWhoAsked(w: Wallet, steps: seq<Step>, i: nat, u: UserId, a: Address)
    requires AllServed(steps) && AlwaysAgree(w, steps) && i < |steps| && Asked(w, steps[i], u, a)
    ensures a in Run(w, steps).table && Run(w, steps).table[a] == u
  {
    hide AddressOf;
    if i < |steps| - 1 {
      FiledUnderWhoAsked(w, steps[..|steps| - 1], i, u, a);
    }
  }

  lemma {:induction false} SharesLess(w: Wallet, steps: seq<Step>)
    requires steps != [] && NobodyShares(w, steps)
    ensures NobodyShares(w, steps[..|steps| - 1])
  {
    var p := steps[..|steps| - 1];
    forall i, j, u, v, a | 0 <= i < |p| && 0 <= j < |p| && Asked(w, p[i], u, a) && Asked(w, p[j], v, a)
      ensures u == v
    {
      assert Asked(w, steps[i], u, a) && Asked(w, steps[j], v, a);
    }
  }

  lemma {:induction false} AgreeIfNobodyShares(w: Wallet, steps: seq<Step>)
    requires AllServed(steps) && NobodyShares(w, steps)
    ensures AlwaysAgree(w, steps)
  {
    hide AddressOf;
    if steps != [] {
      var n := |steps| - 1;
      var p, e := steps[..n], steps[n];
      SharesLess(w, steps);
      AgreeIfNobodyShares(w, p);
      if e.Generate? && AddressOf(w, e.chain, e.user).Some? {
        var a := AddressOf(w, e.chain, e.user).value;
        assert Asked(w, steps[n], e.user, a);
        TableRows(w, p, a);
        if a in Run(w, p).table {
          var i :| 0 <= i < n && Asked(w, p[i], Run(w, p).table[a], a);
          assert Asked(w, steps[i], Run(w, p).table[a], a);
        }
      }
    }
  }

  /**
   * With every insert and every load served, over any requests and restarts: registry and table agree throughout
   * exactly if no address is given to two users.
   */
  lemma {:induction false} AgreeExactly(w: Wallet, steps: seq<Step>)
    requires AllServed(steps)
    ensures AlwaysAgree(w, steps) <==> NobodyShares(w, steps)
  {
    if NobodyShares(w, steps) {
      AgreeIfNobodyShares(w, steps);
    }
    if AlwaysAgree(w, steps) {
      forall i, j, u, v, a |
        0 <= i < |steps| && 0 <= j < |steps| && Asked(w, steps[i], u, a) && Asked(w, steps[j], v, a)
        ensures u == v
      {
        FiledUnderWhoAsked(w, steps, i, u, a);
        FiledUnderWhoAsked(w, steps, j, v, a);
      }
    }
  }

  /** So they agree whenever the users have decimal ids of at most seven digits. */
  lemma {:induction false} AgreeUpToSevenDigits(w: Wallet, steps: seq<Step>)
    requires Injective(w) && AllServed(steps)
    requires forall i :: 0 <= i < |steps| && steps[i].Generate? ==> IsDecimal(steps[i].user) && |steps[i].user| <= 7
    ensures AlwaysAgree(w, steps)
  {
    DistinctExactly(7);
    forall i, j, u, v, a | 0 <= i < |steps| && 0 <= j < |steps| && Asked(w, steps[i], u, a) && Asked(w, steps[j], v, a)
      ensures u == v
    {
      SharedAddressExactly(w, steps[i].chain, u, steps[j].chain, v);
    }
    AgreeExactly(w, steps);
  }

  /** In particular for the wallet of a master key whose derivation and address encoding are collision-free. */
  lemma {:induction false} AgreeOnDerivedAddresses<K(!new)>(master: K, child: (K, uint32) -> Option<K>,
                                                            encode: (Chain, K) -> Option<Address>, steps: seq<Step>)
    requires HdPaths.CollisionFree(master, child) && DistinctEncodings(encode) && AllServed(steps)
    requires forall i :: 0 <= i < |steps| && steps[i].Generate? ==> IsDecimal(steps[i].user) && |steps[i].user| <= 7
    ensures AlwaysAgree(WalletOf(master, child, encode), steps)
  {
    hide AlwaysAgree;
    WalletIsInjective(master, child, encode);
    AgreeUpToSevenDigits(WalletOf(master, child, encode), steps);
  }

  /**
   * And they part with two users of which one has eight digits: deposits to one address, before and after a restart.
   */
  lemma {:induction false} SharedAddressChangesHands(w: Wallet, c: Chain)
    requires Injective(w) && AddressOf(w, c, "1012").Some?
    ensures var a := AddressOf(w, c, "1012").value;
            var steps := [Generate("1012", c, true), Generate("14669600", c, true)];
            && Run(w, steps).registry == map[a := "14669600"]
            && Run(w, steps + [Restart(true)]).registry == map[a := "1012"]
  {
    hide AddressOf, Index;
    Collision();
    SharedAddressExactly(w, c, "1012", c, "14669600");
    var a := AddressOf(w, c, "1012").value;
    var first, second := Generate("1012", c, true), Generate("14669600", c, true);
    var s1, s2 := State(map[a := "1012"], map[a := "1012"]), State(map[a := "14669600"], map[a := "1012"]);
    assert Apply(w, EMPTY, first) == s1;
    assert Apply(w, s1, second) == s2;
    assert [first, second][..1] == [first] && [first][..0] == [];
    assert Run(w, []) == EMPTY;
    assert Run(w, [first]) == s1;
    assert Run(w, [first, second]) == s2;
    assert ([first, second] + [Restart(true)])[..2] == [first, second];
  }
}

/** From user ids to deposit addresses, the in-memory registry and its table. */
module Addresses {
  import opened Basics
  import opened Deposits
  import opened HdPaths

  // ---- The index of a user ----

  /** The base-31 fold of the character codes, unbounded. */
  function Fold(id: string): nat {
    if id == "" then 0 else Fold(id[..|id| - 1]) * 31 + id[|id| - 1] as int
  }

  function Index(id: string): uint32 {
    Fold(id) % UINT32_SIZE
  }

  predicate IsDecimal(id: string) {
    forall i :: 0 <= i < |id| ==> '0' <= id[i] <= '9'
  }

  lemma {:induction false} WrapStep(a: nat, c: nat)
    ensures (a % UINT32_SIZE * 31 + c) % UINT32_SIZE == (a * 31 + c) % UINT32_SIZE
  {
    var q := a / UINT32_SIZE;
    assert a == q * UINT32_SIZE + a % UINT32_SIZE;
    assert a * 31 + c == (a % UINT32_SIZE * 31 + c) + (q * 31) * UINT32_SIZE;
  }

  /** The loop over the id, with an index that wraps at every step. */
  method UserIndex(userID: string) returns (index: uint32)
    ensures index == Index(userID)
  {
    index := 0;
    for i := 0 to |userID|
      invariant index == Index(userID[..i])
    {
      assert userID[..i + 1][..i] == userID[..i];
      WrapStep(Fold(userID[..i]), userID[i] as int);
      index := (index * 31 + userID[i] as int) % UINT32_SIZE;
    }
    assert userID[..|userID|] == userID;
  }

  lemma {:induction false} LastDigit(a: nat, b: nat, c: int, d: int)
    requires '0' as int <= c <= '9' as int && '0' as int <= d <= '9' as int && a * 31 + c == b * 31 + d
    ensures a == b && c == d
  {
  }

  /** On decimal strings of any lengths the unbounded fold tells all ids apart. */
  lemma {:induction false} FoldInjective(s: string, t: string)
    requires IsDecimal(s) && IsDecimal(t) && Fold(s) == Fold(t)
    ensures s == t
    decreases |s|
  {
    if s != "" && t != "" {
      var a, b := s[..|s| - 1], t[..|t| - 1];
      LastDigit(Fold(a), Fold(b), s[|s| - 1] as int, t[|t| - 1] as int);
      FoldInjective(a, b);
      assert s == a + [s[|s| - 1]] && t == b + [t[|t| - 1]];
    }
  }

  /** 1 + 31 + ... + 31^(n-1). */
  function Ones(n: nat): nat {
    if n == 0 then 0 else Ones(n - 1) * 31 + 1
  }

  lemma {:induction false} FoldBounds(s: string)
    requires IsDecimal(s)
    ensures '0' as int * Ones(|s|) <= Fold(s) <= '9' as int * Ones(|s|)
  {
    if s != "" {
      FoldBounds(s[..|s| - 1]);
    }
  }

  lemma {:induction false} OnesGrow(m: nat, n: nat)
    requires m <= n
    ensures Ones(m) <= Ones(n)
    decreases n
  {
    if m < n {
      OnesGrow(m, n - 1);
    }
  }

  /** Whether d can be the fold of a decimal string of n digits: each digit is settled by the remainder modulo 31. */
  predicate IsFold(n: nat, d: int) {
    if n == 0 then d == 0
    else 17 <= d % 31 <= 26 && IsFold(n - 1, (d - 31 - d % 31) / 31)
  }

  /** Whether d can be the difference of the folds of decimal strings of n and of m <= n digits. */
  predicate IsDifference(n: nat, m: nat, d: int)
    requires m <= n
  {
    if m == 0 then IsFold(n, d)
    else if d % 31 <= 9 then IsDifference(n - 1, m - 1, (d - d % 31) / 31)
    else 22 <= d % 31 && IsDifference(n - 1, m - 1, (d + 31 - d % 31) / 31)
  }

  lemma {:induction false} FoldIsFold(s: string)
    requires IsDecimal(s)
    ensures IsFold(|s|, Fold(s))
  {
    if s != "" {
      FoldIsFold(s[..|s| - 1]);
    }
  }

  lemma {:induction false} PeelDigit(n: nat, m: nat, q: int, e: int)
    requires 0 < m <= n && -9 <= e <= 9 && IsDifference(n - 1, m - 1, q)
    ensures IsDifference(n, m, q * 31 + e)
  {
    var d := q * 31 + e;
    if e >= 0 {
      assert d % 31 == e;
    } else {
      assert d % 31 == 31 + e;
    }
  }

  lemma {:induction false} DifferenceIsDifference(s: string, t: string)
    requires IsDecimal(s) && IsDecimal(t) && |t| <= |s|
    ensures IsDifference(|s|, |t|, Fold(s) - Fold(t))
    decreases |t|
  {
    if t == "" {
      FoldIsFold(s);
    } else {
      var a, b := s[..|s| - 1], t[..|t| - 1];
      var e := s[|s| - 1] as int - t[|t| - 1] as int;
      DifferenceIsDifference(a, b);
      PeelDigit(|s|, |t|, Fold(a) - Fold(b), e);
    }
  }

  lemma {:induction false} NextDigit(n: nat, d: int, q: int)
    requires n > 0 && d == q * 31 + d % 31
    ensures IsFold(n, d) <==> 17 <= d % 31 <= 26 && IsFold(n - 1, q - 1)
  {
    assert d - 31 - d % 31 == (q - 1) * 31;
  }

  lemma {:induction false} NextDifference(n: nat, m: nat, d: int, q: int)
    requires 0 < m <= n && d == q * 31 + d % 31
    ensures IsDifference(n, m, d) <==>
            (d % 31 <= 9 && IsDifference(n - 1, m - 1, q)) || (22 <= d % 31 && IsDifference(n - 1, m - 1, q + 1))
  {
    assert d - d % 31 == q * 31 && d + 31 - d % 31 == (q + 1) * 31;
  }

  lemma {:induction false} NoDigits(n: nat, d: int)
    ensures IsDifference(n, 0, d) <==> IsFold(n, d)
  {
  }

  /** No folds of seven and of fewer digits differ by 10, 11 or 12 times 2^32: the digits cannot be chosen. */
  lemma {:induction false} NoWrapUpToSevenDigits(m: nat, k: int)
    requires m <= 6 && 10 <= k <= 12
    ensures !IsDifference(7, m, k * UINT32_SIZE)
  {
    hide IsFold, IsDifference;
    if k == 11 {
      NextDigit(7, 47244640256, 1524020653);
      if m > 0 {
        NextDifference(7, m, 47244640256, 1524020653);
      } else {
        NoDigits(7, 47244640256);
      }
    } else if k == 12 {
      NextDigit(7, 51539607552, 1662567985);
      NextDigit(6, 1662567984, 53631225);
      if m > 0 {
        NextDifference(7, m, 51539607552, 1662567985);
      } else {
        NoDigits(7, 51539607552);
      }
    } else {
      NextDigit(7, 42949672960, 1385473321);
      NextDigit(6, 1385473321, 44692687);
      NextDigit(5, 44692686, 1441699);
      NextDigit(5, 44692688, 1441699);
      NextDigit(4, 1441698, 46506);
      if m == 0 {
        NoDigits(7, 42949672960);
      } else {
        NextDifference(7, m, 42949672960, 1385473321);
        if m == 1 {
          NoDigits(6, 1385473321);
        } else {
          NextDifference(6, m - 1, 1385473321, 44692687);
          if m == 2 {
            NoDigits(5, 44692688);
          } else {
            NextDifference(5, m - 2, 44692688, 1441699);
          }
        }
      }
    }
  }

  lemma {:induction false} NoWrapOfSevenDigits()
    ensures !IsDifference(7, 7, UINT32_SIZE)
  {
    hide IsFold, IsDifference;
    NextDifference(7, 7, 4294967296, 138547332);
    NextDifference(6, 6, 138547332, 4469268);
    NextDifference(5, 5, 4469269, 144169);
    NextDifference(4, 4, 144170, 4650);
  }

  lemma {:induction false} OnesUpToSeven()
    ensures Ones(6) == 29583456 && Ones(7) == 917087137
  {
    assert Ones(3) == 993;
    assert Ones(5) == 954305;
  }

  /** Equal indices mean folds a multiple of 2^32 apart. */
  lemma {:induction false} Apart(s: string, t: string) returns (k: int)
    requires Index(s) == Index(t)
    ensures Fold(s) - Fold(t) == k * UINT32_SIZE
  {
    k := Fold(s) / UINT32_SIZE - Fold(t) / UINT32_SIZE;
  }

  lemma {:induction false} LongerFirst(s: string, t: string)
    requires IsDecimal(s) && IsDecimal(t) && |t| <= |s| <= 7 && Fold(s) >= Fold(t) && Index(s) == Index(t)
    ensures s == t
  {
    hide Ones, IsDifference;
    OnesUpToSeven();
    FoldBounds(s);
    FoldBounds(t);
    OnesGrow(|s|, 7);
    OnesGrow(|t|, |s|);
    var k := Apart(s, t);
    if k == 0 {
      FoldInjective(s, t);
    } else {
      DifferenceIsDifference(s, t);
      if |s| <= 6 {
        OnesGrow(|s|, 6);
        assert false;
      } else if |t| <= 6 {
        OnesGrow(|t|, 6);
        NoWrapUpToSevenDigits(|t|, k);
        assert false;
      } else {
        assert k == 1;
        NoWrapOfSevenDigits();
        assert false;
      }
    }
  }

  /** Ids of up to n decimal digits have different indices. */
  ghost predicate DistinctUpTo(n: nat) {
    forall s, t :: IsDecimal(s) && IsDecimal(t) && |s| <= n && |t| <= n && Index(s) == Index(t) ==> s == t
  }

  lemma {:induction false} FoldSnoc(s: string, c: char)
    ensures Fold(s + [c]) == Fold(s) * 31 + c as int
  {
    assert (s + [c])[..|s|] == s;
  }

  lemma {:induction false} FoldOfNothing()
    ensures Fold("") == 0
  {
  }

  lemma {:induction false} Collision()
    ensures Index("1012") == Index("14669600") == 1507456
  {
    hide Fold;
    FoldSnoc("", '1');
    FoldOfNothing();
    assert "" + "1" == "1" && "1" + "0" == "10" && "10" + "1" == "101" && "101" + "2" == "1012";
    FoldSnoc("1", '0');
    FoldSnoc("10", '1');
    FoldSnoc("101", '2');
    assert "1" + "4" == "14" && "14" + "6" == "146" && "146" + "6" == "1466" && "1466" + "9" == "14669";
    FoldSnoc("1", '4');
    FoldSnoc("14", '6');
    FoldSnoc("146", '6');
    FoldSnoc("1466", '9');
    assert "14669" + "6" == "146696" && "146696" + "0" == "1466960" && "1466960" + "0" == "14669600";
    FoldSnoc("14669", '6');
    FoldSnoc("146696", '0');
    FoldSnoc("1466960", '0');
    assert Fold("14669600") == 325 * UINT32_SIZE + 1507456;
  }

  /** A shorter decimal string has the smaller fold. */
  lemma {:induction false} ShorterIsSmaller(s: string, t: string)
    requires IsDecimal(s) && IsDecimal(t)
    ensures |s| < |t| ==> Fold(s) < Fold(t)
    ensures |t| < |s| ==> Fold(t) < Fold(s)
  {
    FoldBounds(s);
    FoldBounds(t);
    if |s| < |t| {
      OnesGrow(|s|, |t| - 1);
    } else if |t| < |s| {
      OnesGrow(|t|, |s| - 1);
    }
  }

  /** The uint32 index tells users apart exactly up to seven digits; users 1012 and 14669600 share an index. */
  lemma {:induction false} DistinctExactly(n: nat)
    ensures DistinctUpTo(n) <==> n <= 7
  {
    if n <= 7 {
      forall s, t | IsDecimal(s) && IsDecimal(t) && |s| <= n && |t| <= n && Index(s) == Index(t)
        ensures s == t
      {
        if |t| <= |s| && Fold(s) >= Fold(t) {
          LongerFirst(s, t);
        } else if |s| <= |t| && Fold(t) >= Fold(s) {
          LongerFirst(t, s);
        } else {
          ShorterIsSmaller(s, t);
        }
      }
    } else {
      Collision();
      assert IsDecimal("1012") && IsDecimal("14669600");
    }
  }

  /** The indices of ids of up to n digits are child numbers without the hardened bit. */
  ghost predicate UnhardenedUpTo(n: nat) {
    forall s :: IsDecimal(s) && |s| <= n ==> Index(s) < HARDENED
  }

  lemma {:induction false} HardenedUser()
    ensures Index("1700000") >= HARDENED
  {
    hide Fold;
    FoldOfNothing();
    assert "" + "1" == "1" && "1" + "7" == "17" && "17" + "0" == "170" && "170" + "0" == "1700";
    assert "1700" + "0" == "17000" && "17000" + "0" == "170000" && "170000" + "0" == "1700000";
    FoldSnoc("", '1');
    FoldSnoc("1", '7');
    FoldSnoc("17", '0');
    FoldSnoc("170", '0');
    FoldSnoc("1700", '0');
    FoldSnoc("17000", '0');
    FoldSnoc("170000", '0');
  }

  /** Up to six digits every index is a plain child number; user 1700000 gets a hardened one. */
  lemma {:induction false} UnhardenedExactly(n: nat)
    ensures UnhardenedUpTo(n) <==> n <= 6
  {
    if n <= 6 {
      forall s | IsDecimal(s) && |s| <= n
        ensures Index(s) < HARDENED
      {
        FoldBounds(s);
        OnesGrow(|s|, 6);
        OnesUpToSeven();
      }
    } else {
      HardenedUser();
      assert IsDecimal("1700000");
    }
  }

  // ---- The address of a user ----

  function CoinType(c: Chain): uint32 {
    if c.BTC? then 0 else 60
  }

  function PathLevels(c: Chain, user: UserId): seq<Child> {
    [Hardened(44), Hardened(CoinType(c)), Hardened(0), Plain(0), Plain(Index(user))]
  }

  /** m/44'/0'/0'/0/index or m/44'/60'/0'/0/index. */
  function DepositPath(c: Chain, user: UserId): string {
    "m/44'/" + Decimal(CoinType(c)) + "'/0'/0/" + Decimal(Index(user))
  }

  lemma {:induction false} NumbersOf(cs: seq<Child>)
    requires forall i :: 0 <= i < |cs| ==> IsChild(cs[i])
    ensures |Numbers(cs)| == |cs| && forall i :: 0 <= i < |cs| ==> Numbers(cs)[i] == Number(cs[i])
  {
    if cs != [] {
      NumbersOf(cs[..|cs| - 1]);
    }
  }

  lemma {:induction false} PrintSnoc(cs: seq<Child>, c: Child)
    ensures PrintLevels([c]) == PrintLevel(c)
    ensures cs != [] ==> PrintLevels(cs + [c]) == PrintLevels(cs) + "/" + PrintLevel(c)
  {
    assert (cs + [c])[..|cs + [c]| - 1] == cs;
  }

  lemma {:induction false} JoinedLevels(coin: string, index: string)
    ensures "m/" + ("44" + "'" + "/" + (coin + "'") + "/" + ("0" + "'") + "/" + ("0" + "") + "/" + (index + "")) ==
            "m/44'/" + coin + "'/0'/0/" + index
  {
    var middle := "'" + "/" + ("0" + "'") + "/" + ("0" + "") + "/";
    assert middle == "'/0'/0/";
    assert "44" + "'" + "/" + (coin + "'") + "/" + ("0" + "'") + "/" + ("0" + "") + "/" + (index + "") == "44'/" +
      coin + middle + index;
  }

  lemma {:induction false} SmallDecimals()
    ensures Decimal(0) == "0" && Decimal(44) == "44"
  {
    assert Decimal(4) == "4";
  }

  lemma {:induction false} PrintDepositPath(c: Chain, user: UserId)
    ensures PrintPath(PathLevels(c, user)) == DepositPath(c, user)
  {
    hide Decimal, Index, PrintLevels;
    var c1, c2: Child, c3, c4, c5: Child := Hardened(44), Hardened(CoinType(c)), Hardened(0), Plain(0),
      Plain(Index(user));
    SmallDecimals();
    PrintSnoc([], c1);
    PrintSnoc([c1], c2);
    PrintSnoc([c1] + [c2], c3);
    PrintSnoc([c1] + [c2] + [c3], c4);
    PrintSnoc([c1] + [c2] + [c3] + [c4], c5);
    assert PathLevels(c, user) == [c1] + [c2] + [c3] + [c4] + [c5];
    JoinedLevels(Decimal(CoinType(c)), Decimal(Index(user)));
  }

  /** The parser reads a deposit path as purpose 44', the coin type, account 0', change 0, and the user's index. */
  lemma {:induction false} DepositPathParses(c: Chain, user: UserId)
    ensures Parsed(DepositPath(c, user)) == [44 + HARDENED, CoinType(c) + HARDENED, HARDENED, 0, Index(user)]
  {
    hide Parsed, Numbers, DepositPath, PrintPath;
    PrintDepositPath(c, user);
    RoundTrip(PathLevels(c, user));
    NumbersOf(PathLevels(c, user));
  }

  lemma {:induction false} CoinDecimals()
    ensures Decimal(60) == "60"
  {
    assert Decimal(6) == "6";
  }

  /**
   * The paths of a user, in numbers: m/44'/0'/0'/0/i for Bitcoin and m/44'/60'/0'/0/i for Ethereum, where i is the
   * base-31 index, and what the parser makes of them.
   */
  lemma {:induction false} DepositPathsInNumbers(user: UserId)
    ensures DepositPath(BTC, user) == "m/44'/0'/0'/0/" + Decimal(Index(user))
    ensures DepositPath(ETH, user) == "m/44'/60'/0'/0/" + Decimal(Index(user))
    ensures Parsed(DepositPath(BTC, user)) == [0x8000_002C, 0x8000_0000, 0x8000_0000, 0, Index(user)]
    ensures Parsed(DepositPath(ETH, user)) == [0x8000_002C, 0x8000_003C, 0x8000_0000, 0, Index(user)]
  {
    hide Index, Parsed;
    DepositPathParses(BTC, user);
    DepositPathParses(ETH, user);
    SmallDecimals();
    CoinDecimals();
  }

  /** The index of a longer id from that of a shorter one, and of the empty one: base 31, modulo 2^32. */
  lemma {:induction false} IndexExactly(id: string, c: char)
    ensures Index("") == 0
    ensures Index(id + [c]) == (Index(id) * 31 + c as int) % 0x1_0000_0000
  {
    FoldSnoc(id, c);
    WrapStep(Fold(id), c as int);
  }

  /** The derivation from child numbers to addresses; None where the library refuses. */
  type Wallet = (Chain, seq<uint32>) -> Option<Address>

  /** Different chains or child numbers give different addresses. */
  ghost predicate Injective(w: Wallet) {
    forall c, d, s, t :: w(c, s).Some? && w(c, s) == w(d, t) ==> c == d && s == t
  }

  /**
   * The wallet of a master key: derivation along the child numbers, then the chain's encoding of the key as an
   * address.
   */
  function WalletOf<K>(master: K, child: (K, uint32) -> Option<K>, encode: (Chain, K) -> Option<Address>): Wallet {
    (c: Chain, s: seq<uint32>) =>
      match Derived(master, s, child)
      case None => None
      case Some(k) => encode(c, k)
  }

  /** Different chains or keys have different addresses. */
  ghost predicate DistinctEncodings<K(!new)>(encode: (Chain, K) -> Option<Address>) {
    forall c, d, k, l :: encode(c, k).Some? && encode(c, k) == encode(d, l) ==> c == d && k == l
  }

  /** Collision-free derivation and encoding make a wallet in which no two paths share an address. */
  lemma {:induction false} WalletIsInjective<K(!new)>(master: K, child: (K, uint32) -> Option<K>,
                                                      encode: (Chain, K) -> Option<Address>)
    requires CollisionFree(master, child) && DistinctEncodings(encode)
    ensures Injective(WalletOf(master, child, encode))
  {
    hide Derived, CollisionFree;
    var w := WalletOf(master, child, encode);
    forall c, d, s, t | w(c, s).Some? && w(c, s) == w(d, t)
      ensures c == d && s == t
    {
      DistinctPathsDistinctKeys(master, s, t, child);
    }
  }

  function AddressOf(w: Wallet, c: Chain, user: UserId): Option<Address> {
    w(c, Parsed(DepositPath(c, user)))
  }

  /** Two users get the same address exactly if they ask for the same chain and have the same index. */
  lemma {:induction false} SharedAddressExactly(w: Wallet, c: Chain, u: UserId, d: Chain, v: UserId)
    requires Injective(w) && AddressOf(w, c, u).Some?
    ensures AddressOf(w, c, u) == AddressOf(w, d, v) <==> c == d && Index(u) == Index(v)
  {
    hide Parsed, Index;
    DepositPathParses(c, u);
    DepositPathParses(d, v);
    if AddressOf(w, c, u) == AddressOf(w, d, v) {
      assert Parsed(DepositPath(c, u))[4] == Parsed(DepositPath(d, v))[4];
    }
  }
}

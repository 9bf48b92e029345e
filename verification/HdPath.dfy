/** Parsing of derivation paths such as m/44'/60'/0'/0/7, and derivation along them. */
module HdPaths {
  import opened Basics

  /** The finished levels and the one being read. */
  datatype Reading = Reading(segments: seq<uint32>, current: uint32)

  function DigitValue(c: char): int {
    c as int - '0' as int
  }

  /** One byte; current is a uint32, so it wraps, and the quote sets its top bit. */
  function Read(r: Reading, c: char): Reading {
    if '0' <= c <= '9' then r.(current := (r.current * 10 + DigitValue(c)) % UINT32_SIZE)
    else if c == '\'' then r.(current := if r.current < HARDENED then r.current + HARDENED else r.current)
    else if c == '/' then Reading(r.segments + [r.current], 0)
    else r
  }

  function ReadAll(r: Reading, p: string): Reading {
    if p == "" then r else Read(ReadAll(r, p[..|p| - 1]), p[|p| - 1])
  }

  function WithoutRoot(p: string): string {
    if |p| > 1 && p[..2] == "m/" then p[2..] else p
  }

  function Parsed(p: string): seq<uint32> {
    var q := WithoutRoot(p);
    if q == "" then []
    else
      var r := ReadAll(Reading([], 0), q);
      r.segments + [r.current]
  }

  method ParsePath(path: string) returns (segments: seq<uint32>)
    ensures segments == Parsed(path)
  {
    segments := [];
    var p := path;
    if |p| > 1 && p[..2] == "m/" {
      p := p[2..];
    }
    if p == "" {
      return;
    }
    var current: uint32 := 0;
    for i := 0 to |p|
      invariant Reading(segments, current) == ReadAll(Reading([], 0), p[..i])
    {
      assert p[..i + 1][..i] == p[..i];
      var c := p[i];
      if '0' <= c <= '9' {
        current := (current * 10 + DigitValue(c)) % UINT32_SIZE;
      } else if c == '\'' {
        current := if current < HARDENED then current + HARDENED else current;
      } else if c == '/' {
        segments := segments + [current];
        current := 0;
      }
    }
    assert p[..|p|] == p;
    segments := segments + [current];
  }

  // ---- Printing, as BIP-32 writes paths ----

  /** A child number: plain, over all of uint32, or hardened, which stands for n + 2^31. */
  datatype Child = Plain(n: uint32) | Hardened(n: uint32)

  predicate IsChild(c: Child) {
    c.Hardened? ==> c.n < HARDENED
  }

  function Number(c: Child): uint32
    requires IsChild(c)
  {
    if c.Plain? then c.n else c.n + HARDENED
  }

  function Numbers(cs: seq<Child>): seq<uint32>
    requires forall i :: 0 <= i < |cs| ==> IsChild(cs[i])
  {
    if cs == [] then [] else Numbers(cs[..|cs| - 1]) + [Number(cs[|cs| - 1])]
  }

  function Digit(d: int): char
    requires 0 <= d < 10
  {
    '0' + d as char
  }

  function Decimal(n: nat): string {
    if n < 10 then [Digit(n)] else Decimal(n / 10) + [Digit(n % 10)]
  }

  function PrintLevel(c: Child): string {
    Decimal(c.n) + if c.Hardened? then "'" else ""
  }

  function PrintLevels(cs: seq<Child>): string
    requires cs != []
  {
    if |cs| == 1 then PrintLevel(cs[0]) else PrintLevels(cs[..|cs| - 1]) + "/" + PrintLevel(cs[|cs| - 1])
  }

  /** m, and a slash before every level. */
  function PrintPath(cs: seq<Child>): string {
    if cs == [] then "m" else "m/" + PrintLevels(cs)
  }

  lemma {:induction false} ReadAppend(r: Reading, p: string, q: string)
    ensures ReadAll(r, p + q) == ReadAll(ReadAll(r, p), q)
  {
    if q == "" {
      assert p + q == p;
    } else {
      ReadAppend(r, p, q[..|q| - 1]);
      assert (p + q)[..|p + q| - 1] == p + q[..|q| - 1];
    }
  }

  lemma {:induction false} ReadOne(r: Reading, c: char)
    ensures ReadAll(r, [c]) == Read(r, c)
  {
    assert [c][..0] == "";
  }

  lemma {:induction false} WrapDigit(a: nat, d: nat)
    ensures (a % UINT32_SIZE * 10 + d) % UINT32_SIZE == (a * 10 + d) % UINT32_SIZE
  {
    var q := a / UINT32_SIZE;
    assert a == q * UINT32_SIZE + a % UINT32_SIZE;
    assert a * 10 + d == (a % UINT32_SIZE * 10 + d) + (q * 10) * UINT32_SIZE;
  }

  /** The digits of any number are read as it modulo 2^32, and so a number below 2^32 as itself. */
  lemma {:induction false} ReadDecimal(segments: seq<uint32>, n: nat)
    ensures ReadAll(Reading(segments, 0), Decimal(n)) == Reading(segments, n % 0x1_0000_0000)
    decreases n
  {
    if n < 10 {
      ReadOne(Reading(segments, 0), Digit(n));
    } else {
      ReadDecimal(segments, n / 10);
      ReadAppend(Reading(segments, 0), Decimal(n / 10), [Digit(n % 10)]);
      ReadOne(Reading(segments, (n / 10) % UINT32_SIZE), Digit(n % 10));
      WrapDigit(n / 10, n % 10);
    }
  }

  lemma {:induction false} ReadLevel(segments: seq<uint32>, c: Child)
    requires IsChild(c)
    ensures ReadAll(Reading(segments, 0), PrintLevel(c)) == Reading(segments, Number(c))
  {
    ReadDecimal(segments, c.n);
    if c.Hardened? {
      ReadAppend(Reading(segments, 0), Decimal(c.n), "'");
      ReadOne(Reading(segments, c.n), '\'');
    } else {
      assert Decimal(c.n) + "" == Decimal(c.n);
    }
  }

  lemma {:induction false} ReadSlash(segments: seq<uint32>, current: uint32)
    ensures ReadAll(Reading(segments, current), "/") == Reading(segments + [current], 0)
  {
    ReadOne(Reading(segments, current), '/');
  }

  lemma {:induction false} ReadLevels(cs: seq<Child>)
    requires cs != [] && forall i :: 0 <= i < |cs| ==> IsChild(cs[i])
    ensures ReadAll(Reading([], 0), PrintLevels(cs)) == Reading(Numbers(cs[..|cs| - 1]), Number(cs[|cs| - 1]))
  {
    hide Read;
    var n := |cs| - 1;
    if n == 0 {
      ReadLevel([], cs[0]);
    } else {
      var start, p := Reading([], 0), PrintLevels(cs[..n]);
      ReadLevels(cs[..n]);
      ReadAppend(start, p, "/");
      ReadAppend(start, p + "/", PrintLevel(cs[n]));
      ReadSlash(Numbers(cs[..n][..n - 1]), Number(cs[n - 1]));
      ReadLevel(Numbers(cs[..n]), cs[n]);
    }
  }

  lemma {:induction false} NonEmptyLevels(cs: seq<Child>)
    requires cs != []
    ensures PrintLevels(cs) != ""
  {
    assert forall n: nat :: Decimal(n) != "";
  }

  /**
   * Printing and parsing give the child numbers back, over all of uint32 and both notations, exactly when there is at
   * least one. For none the path is m, the root itself, which is read as the root's child 0.
   */
  lemma {:induction false} RoundTrip(cs: seq<Child>)
    requires forall i :: 0 <= i < |cs| ==> IsChild(cs[i])
    ensures Parsed(PrintPath(cs)) == Numbers(cs) <==> cs != []
    ensures Parsed(PrintPath([])) == [0]
  {
    ReadOne(Reading([], 0), 'm');
    assert WithoutRoot("m") == "m" && Parsed("m") == [0];
    if cs != [] {
      var p := PrintPath(cs);
      assert p[..2] == "m/" && p[2..] == PrintLevels(cs);
      NonEmptyLevels(cs);
      ReadLevels(cs);
    }
  }

  /**
   * How every path is read, byte by byte after an optional m/ in front: a digit is appended to the level modulo 2^32,
   * a quote sets bit 31 if it is not set, a slash ends the level, and any other byte is passed over.
   */
  lemma {:induction false} BytesExactly(p: string, c: char)
    requires p != ""
    ensures var s := ReadAll(Reading([], 0), p);
            var t := ReadAll(Reading([], 0), p + [c]);
            && ('0' <= c <= '9' ==>
                  t == Reading(s.segments, (s.current * 10 + (c as int - '0' as int)) % 0x1_0000_0000))
            && (c == '\'' && s.current < 0x8000_0000 ==> t == Reading(s.segments, s.current + 0x8000_0000))
            && (c == '\'' && s.current >= 0x8000_0000 ==> t == s)
            && (c == '/' ==> t == Reading(s.segments + [s.current], 0))
            && (!('0' <= c <= '9') && c != '\'' && c != '/' ==> t == s)
  {
    assert (p + [c])[..|p|] == p;
  }

  lemma {:induction false} PathsExactly(p: string)
    requires p != ""
    ensures Parsed("") == [] && Parsed("m/") == []
    ensures |p| < 2 || p[..2] != "m/" ==>
              Parsed(p) == ReadAll(Reading([], 0), p).segments + [ReadAll(Reading([], 0), p).current]
    ensures Parsed("m/" + p) == ReadAll(Reading([], 0), p).segments + [ReadAll(Reading([], 0), p).current]
  {
    assert ("m/" + p)[..2] == "m/" && ("m/" + p)[2..] == p;
  }

  // ---- Derivation ----

  /** Derivation along child numbers; None where the library refuses a child. */
  function Derived<K>(master: K, segments: seq<uint32>, child: (K, uint32) -> Option<K>): Option<K> {
    if segments == [] then Some(master)
    else
      match Derived(master, segments[..|segments| - 1], child)
      case None => None
      case Some(k) => child(k, segments[|segments| - 1])
  }

  lemma {:induction false} StaysRefused<K>(master: K, segments: seq<uint32>, n: nat, child: (K, uint32) -> Option<K>)
    requires n <= |segments| && Derived(master, segments[..n], child) == None
    ensures Derived(master, segments, child) == None
    decreases |segments|
  {
    if n < |segments| {
      var p := segments[..|segments| - 1];
      assert p[..n] == segments[..n];
      StaysRefused(master, p, n, child);
    } else {
      assert segments[..n] == segments;
    }
  }

  method DerivePath<K>(master: K, path: string, child: (K, uint32) -> Option<K>) returns (r: Option<K>)
    ensures r == Derived(master, Parsed(path), child)
  {
    var segments := ParsePath(path);
    var key := master;
    for i := 0 to |segments|
      invariant Some(key) == Derived(master, segments[..i], child)
    {
      assert segments[..i + 1][..i] == segments[..i];
      var next := child(key, segments[i]);
      if next.None? {
        StaysRefused(master, segments, i + 1, child);
        return None;
      }
      key := next.value;
    }
    assert segments[..|segments|] == segments;
    return Some(key);
  }

  /** Derivation goes from the master through the child numbers in order, and stops where the library refuses. */
  lemma {:induction false} DerivedExactly<K>(master: K, s: seq<uint32>, n: uint32, child: (K, uint32) -> Option<K>)
    ensures Derived(master, [], child) == Some(master)
    ensures Derived(master, s, child) == None ==> Derived(master, s + [n], child) == None
    ensures Derived(master, s, child).Some? ==>
              Derived(master, s + [n], child) == child(Derived(master, s, child).value, n)
  {
    assert (s + [n])[..|s|] == s;
  }

  /** No two keys have a common child, no key has two equal ones, and the master is nobody's child. */
  ghost predicate CollisionFree<K(!new)>(master: K, child: (K, uint32) -> Option<K>) {
    && (forall k, l, m, n :: child(k, m).Some? && child(k, m) == child(l, n) ==> k == l && m == n)
    && (forall k, m :: child(k, m) != Some(master))
  }

  /** Along a collision-free derivation different lists of child numbers give different keys. */
  lemma {:induction false} DistinctPathsDistinctKeys<K(!new)>(master: K, s: seq<uint32>, t: seq<uint32>,
                                                              child: (K, uint32) -> Option<K>)
    requires CollisionFree(master, child) && Derived(master, s, child).Some?
    requires Derived(master, s, child) == Derived(master, t, child)
    ensures s == t
    decreases |s|
  {
    if s != [] && t != [] {
      var a, b := s[..|s| - 1], t[..|t| - 1];
      DistinctPathsDistinctKeys(master, a, b, child);
      assert s == a + [s[|s| - 1]] && t == b + [t[|t| - 1]];
    }
  }
}

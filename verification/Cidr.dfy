/** CIDR arithmetic: addresses are naturals; a network is one of the consecutive blocks of
    2^(width - prefix) addresses into which its family is divided. */
module Cidr {

  function Pow2(n: nat): (p: nat)
    ensures p >= 1
  {
    if n == 0 then 1 else 2 * Pow2(n - 1)
  }

  datatype Family = V4 | V6

  function Width(family: Family): nat {
    if family.V4? then 32 else 128
  }

  datatype Address = Address(family: Family, value: nat)

  /** `index` numbers the block: it is what the mask leaves of an address, without the trailing zeros. */
  datatype Block = Block(family: Family, index: nat, prefix: nat) {
    function Size(): (n: nat)
      requires prefix <= Width(family)
      ensures n >= 1
    {
      Pow2(Width(family) - prefix)
    }

    /** The network address. */
    function Base(): nat
      requires prefix <= Width(family)
    {
      index * Size()
    }

    /** The broadcast address. */
    function Last(): int
      requires prefix <= Width(family)
    {
      index * Size() + Size() - 1
    }
  }

  type Network = b: Block | b.prefix <= Width(b.family) witness Block(V4, 0, 32)

  /** An address without its host bits, for blocks of the given size. */
  function Quotient(v: nat, size: nat): nat
    requires size >= 1
  {
    v / size
  }

  /** Membership as the mask computes it: the address without its host bits is the network. */
  predicate Contains(n: Network, a: Address) {
    a.family == n.family && Quotient(a.value, n.Size()) == n.index
  }

  /** Parsing with `strict=False`: the host bits of the written address are dropped. */
  function NetworkOf(a: Address, prefix: nat): (n: Network)
    requires prefix <= Width(a.family)
    ensures Contains(n, a) && n.prefix == prefix
  {
    Block(a.family, Quotient(a.value, Pow2(Width(a.family) - prefix)), prefix)
  }

  /** Comparison of network and broadcast addresses. */
  predicate SubnetOf(inner: Network, outer: Network) {
    inner.family == outer.family && outer.Base() <= inner.Base() && inner.Last() <= outer.Last()
  }

  lemma MultiplesGrow(a: nat, b: nat, size: nat)
    requires a <= b
    ensures a * size <= b * size
  {
  }

  lemma DivisionIsUnique(v: nat, q: nat, size: nat)
    requires size >= 1
    ensures v / size == q <==> q * size <= v < q * size + size
  {
    var f := v / size;
    assert v == f * size + v % size;
    if f > q {
      MultiplesGrow(q + 1, f, size);
    } else if f < q {
      MultiplesGrow(f + 1, q, size);
    }
  }

  lemma {:induction false} Pow2Splits(a: nat, b: nat)
    ensures Pow2(a + b) == Pow2(a) * Pow2(b)
  {
    if a > 0 {
      Pow2Splits(a - 1, b);
      assert Pow2(a + b) == 2 * Pow2(a - 1 + b);
    }
  }

  /** The mask test and the interval from network address to broadcast address agree. */
  lemma ContainsIsInterval(n: Network, a: Address)
    ensures Contains(n, a) <==> a.family == n.family && n.Base() <= a.value <= n.Last()
  {
    DivisionIsUnique(a.value, n.index, n.Size());
  }

  /** Every address of `inner` is one of `outer`. */
  ghost predicate Inside(inner: Network, outer: Network) {
    forall a :: Contains(inner, a) ==> Contains(outer, a)
  }

  /** The bounds comparison is exactly inclusion of the address sets. */
  lemma SubnetIsInclusion(inner: Network, outer: Network)
    ensures SubnetOf(inner, outer) <==> Inside(inner, outer)
  {
    var first, last := Address(inner.family, inner.Base()), Address(inner.family, inner.Last());
    ContainsIsInterval(inner, first);
    ContainsIsInterval(inner, last);
    ContainsIsInterval(outer, first);
    ContainsIsInterval(outer, last);
    if SubnetOf(inner, outer) {
      forall a | Contains(inner, a)
        ensures Contains(outer, a)
      {
        ContainsIsInterval(inner, a);
        ContainsIsInterval(outer, a);
      }
    }
  }

  lemma Regroup(q: nat, k: nat, s: nat)
    ensures q * k * s == q * (k * s)
    ensures (q * k + k) * s == q * (k * s) + k * s
  {
  }

  /** Dropping the low bits in two steps is dropping them at once. */
  lemma DivisionTwice(v: nat, k: nat, s: nat)
    requires k >= 1 && s >= 1
    ensures k * s >= 1
    ensures v / (k * s) == v / s / k
  {
    var f := v / s;
    var q := f / k;
    assert k * s >= 1 by { MultiplesGrow(1, k, s); }
    DivisionIsUnique(v, f, s);
    DivisionIsUnique(f, q, k);
    MultiplesGrow(q * k, f, s);
    MultiplesGrow(f + 1, q * k + k, s);
    Regroup(q, k, s);
    DivisionIsUnique(v, q, k * s);
  }

  /** Two networks that share an address are nested, the longer prefix inside. */
  lemma SharedAddressMeansNested(narrow: Network, wide: Network, a: Address)
    requires Contains(narrow, a) && Contains(wide, a) && wide.prefix <= narrow.prefix
    ensures Inside(narrow, wide)
  {
    var s, k := narrow.Size(), Pow2(narrow.prefix - wide.prefix);
    Pow2Splits(narrow.prefix - wide.prefix, Width(a.family) - narrow.prefix);
    assert wide.Size() == k * s;
    forall b | Contains(narrow, b)
      ensures Contains(wide, b)
    {
      DivisionTwice(a.value, k, s);
      DivisionTwice(b.value, k, s);
    }
  }

  lemma WideHasFour(n: Network)
    requires n.prefix + 1 < Width(n.family)
    ensures n.Size() >= 4
  {
    var k := Width(n.family) - n.prefix;
    assert Pow2(k) == 2 * Pow2(k - 1) && Pow2(k - 1) == 2 * Pow2(k - 2);
  }

  /** How many host addresses `hosts()` lists: all of a /31 or /32 (/127 or /128), otherwise the network
      address is left out, and for IPv4 the broadcast address too. */
  function HostCount(n: Network): nat {
    if n.prefix + 1 >= Width(n.family) then n.Size()
    else if n.family.V4? then WideHasFour(n); n.Size() - 2
    else n.Size() - 1
  }

  function Hosts(n: Network): (hosts: seq<nat>)
    ensures |hosts| == HostCount(n)
  {
    var first := if HostCount(n) == n.Size() then n.Base() else n.Base() + 1;
    seq(HostCount(n), i requires i >= 0 => first + i)
  }

  /** The host list is ascending and stays inside the network. */
  lemma HostsAreInside(n: Network)
    ensures forall i, j :: 0 <= i < j < |Hosts(n)| ==> Hosts(n)[i] < Hosts(n)[j]
    ensures forall i :: 0 <= i < |Hosts(n)| ==> Contains(n, Address(n.family, Hosts(n)[i]))
  {
    forall i | 0 <= i < |Hosts(n)| ensures Contains(n, Address(n.family, Hosts(n)[i])) {
      ContainsIsInterval(n, Address(n.family, Hosts(n)[i]));
    }
  }

  /** A host of the network: an address of it, but where there are more than two neither the network address nor,
      for IPv4, the broadcast address. */
  predicate IsHost(n: Network, x: nat) {
    && Contains(n, Address(n.family, x))
    && (n.prefix + 1 >= Width(n.family) || (x != n.Base() && (n.family.V6? || x != n.Last())))
  }

  /** The host list holds exactly the hosts. */
  lemma HostsExactly(n: Network, x: nat)
    ensures x in Hosts(n) <==> IsHost(n, x)
  {
    ContainsIsInterval(n, Address(n.family, x));
    if n.prefix + 1 < Width(n.family) {
      WideHasFour(n);
    }
    var first := if HostCount(n) == n.Size() then n.Base() else n.Base() + 1;
    if IsHost(n, x) {
      assert 0 <= x - first < HostCount(n);
      assert Hosts(n)[x - first] == x;
    }
  }

  /** A network of one address has the full prefix, and each bit less doubles the size. */
  lemma SizeDoubles(n: Network, m: Network)
    requires n.family == m.family && n.prefix == m.prefix + 1
    ensures m.Size() == 2 * n.Size()
    ensures n.prefix == (if n.family.V4? then 32 else 128) ==> n.Size() == 1
  {
  }

  /** The network of an address and a prefix is the only one of that prefix that holds the address. */
  lemma NetworkIsUnique(a: Address, n: Network)
    requires Contains(n, a)
    ensures n == NetworkOf(a, n.prefix)
  {
  }
}

/**
 IPv4 addresses of a node's subnet (config/network_addr.go), as 32-bit numbers: bounds, the search for
 the next free address, and the reserved DNS address.
 */
module Addresses {
  const SPACE := 0x1_0000_0000

  type Address = a: int | 0 <= a < SPACE

  /** The node's own address and the prefix length of its subnet. */
  datatype Subnet = Subnet(local: Address, bits: nat)

  predicate ValidSubnet(n: Subnet) { n.bits <= 32 }

  function Pow2(n: nat): (p: nat)
    ensures p > 0
  {
    if n == 0 then 1 else 2 * Pow2(n - 1)
  }

  lemma {:induction false} Pow2Sum(m: nat, n: nat)
    ensures Pow2(m + n) == Pow2(m) * Pow2(n)
  {
    if m > 0 {
      Pow2Sum(m - 1, n);
      MulTwice(Pow2(m - 1), Pow2(n));
    }
  }

  lemma MulTwice(a: nat, b: nat)
    ensures 2 * (a * b) == (2 * a) * b
  {
  }

  lemma Pow2Space()
    ensures Pow2(32) == SPACE
  {
    assert Pow2(8) == 0x100;
    assert Pow2(16) == 0x1_0000;
    assert Pow2(24) == 0x100_0000;
  }

  function Size(n: Subnet): nat
    requires ValidSubnet(n)
  {
    Pow2(32 - n.bits)
  }

  /** `local & mask`. */
  function Network(n: Subnet): int
    requires ValidSubnet(n)
  {
    n.local / Size(n) * Size(n)
  }

  /** `network | ^mask`. */
  function Broadcast(n: Subnet): int
    requires ValidSubnet(n)
  {
    Network(n) + Size(n) - 1
  }

  /** The bounds are addresses, and the node's own address lies between them. */
  lemma SubnetBounds(n: Subnet)
    requires ValidSubnet(n)
    ensures 0 <= Network(n) <= n.local <= Broadcast(n) < SPACE
  {
    Pow2Space();
    Pow2Sum(n.bits, 32 - n.bits);
    BlockBounds(n.local, Size(n), Pow2(n.bits));
  }

  /** Without a prefix the subnet is everything. */
  lemma WholeSpace(n: Subnet)
    requires n.bits == 0
    ensures Network(n) == 0 && Broadcast(n) == SPACE - 1
  {
    Pow2Space();
    assert n.local / SPACE == 0;
  }

  lemma BlockBounds(x: nat, size: nat, count: nat)
    requires size > 0 && x < count * size
    ensures 0 <= x / size * size <= x < x / size * size + size <= count * size
  {
    var k := x / size;
    DivBounds(x, size, k);
    if k >= count {
      MulMono(count, k, size);
    } else {
      MulMono(k + 1, count, size);
    }
  }

  lemma DivBounds(x: nat, size: nat, k: nat)
    requires size > 0 && k == x / size
    ensures k * size <= x < (k + 1) * size && (k + 1) * size == k * size + size
  {
  }

  lemma MulMono(a: nat, b: nat, p: nat)
    requires a <= b
    ensures a * p <= b * p
  {
  }

  predicate Inside(n: Subnet, a: int)
    requires ValidSubnet(n)
  {
    Network(n) <= a <= Broadcast(n)
  }

  // ---- The next free address -----------------------------------------------------------------------

  /** `incrementIPAddr`: 32-bit addition. */
  function Increment(a: Address): Address {
    (a + 1) % SPACE
  }

  /** The address `i` steps after `a`. */
  function After(a: Address, i: nat): Address {
    (a + i) % SPACE
  }

  /** The first address after `a` that is not excluded. */
  ghost predicate IsFirstFree(a: Address, excluded: set<int>, i: nat) {
    && 0 < i && After(a, i) !in excluded
    && forall j :: 0 < j < i ==> After(a, j) in excluded
  }

  lemma AfterDistinct(a: Address, i: nat, j: nat)
    requires i < j < i + SPACE
    ensures After(a, i) != After(a, j)
  {
  }

  /** Consecutive excluded addresses are different ones, so there are at least as many of them. */
  lemma {:induction false} Stretch(a: Address, excluded: set<int>, n: nat)
    requires n <= SPACE && forall j :: 0 < j <= n ==> After(a, j) in excluded
    ensures n <= |excluded|
  {
    if n > 0 {
      forall j | 0 < j < n ensures After(a, j) != After(a, n) { AfterDistinct(a, j, n); }
      Stretch(a, excluded - {After(a, n)}, n - 1);
    }
  }

  /** The search loop of GenerateNextIpAddrExcept; it ends within one step more than there are excluded addresses. */
  method SearchFree(start: Address, excluded: set<int>) returns (r: Address, steps: nat)
    requires |excluded| < SPACE
    ensures IsFirstFree(start, excluded, steps) && r == After(start, steps)
    ensures steps <= |excluded| + 1
  {
    r, steps := Increment(start), 1;
    while r in excluded
      invariant r == After(start, steps) && 0 < steps <= |excluded| + 1
      invariant forall j :: 0 < j < steps ==> After(start, j) in excluded
      decreases |excluded| + 1 - steps
    {
      Stretch(start, excluded, steps);
      r := Increment(r);
      steps := steps + 1;
    }
  }

  /** However the first free address is found, it is no further away than that. */
  lemma FirstFreeIsNear(a: Address, excluded: set<int>, i: nat)
    requires |excluded| < SPACE && IsFirstFree(a, excluded, i)
    ensures i <= |excluded| + 1
  {
    if i > |excluded| + 1 {
      Stretch(a, excluded, |excluded| + 1);
    }
  }

  /**
   From an address below the broadcast address the search stays below it exactly when some address
   in between is free, and then it finds the lowest one.
   */
  lemma FirstFreeStaysBelow(a: Address, limit: int, excluded: set<int>, i: nat)
    requires a < limit < SPACE && IsFirstFree(a, excluded, i)
    ensures a + i < limit <==> exists b :: a < b < limit && b !in excluded
    ensures a + i < limit ==> After(a, i) == a + i && forall b :: a < b < a + i ==> b in excluded
  {
    forall b | a < b < limit && b !in excluded ensures a + i < limit {
      assert After(a, b - a) == b;
    }
    if a + i < limit {
      assert a < a + i < limit && a + i !in excluded;
      forall b | a < b < a + i ensures b in excluded { assert After(a, b - a) in excluded; }
    }
  }
}

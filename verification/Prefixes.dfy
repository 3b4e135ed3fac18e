/** Networks of either family as blocks of numbers. */
module Prefixes {
  import opened Addresses

  /** A network of either family; `addr` is the address as a number. */
  datatype Prefix = Prefix(v6: bool, addr: int, bits: nat)

  function Width(v6: bool): nat { if v6 then 128 else 32 }

  predicate ValidPrefix(p: Prefix) { p.bits <= Width(p.v6) && 0 <= p.addr < Pow2(Width(p.v6)) }

  /** The number of addresses in a prefix. */
  function Block(p: Prefix): nat
    requires ValidPrefix(p)
  {
    Pow2(Width(p.v6) - p.bits)
  }

  /** Host bits cleared. */
  function Masked(p: Prefix): Prefix
    requires ValidPrefix(p)
  {
    p.(addr := p.addr / Block(p) * Block(p))
  }

  predicate Covers(p: Prefix, v6: bool, a: nat) {
    ValidPrefix(p) && p.v6 == v6 && a / Block(p) == p.addr / Block(p)
  }

  /** Clearing the host bits changes nothing about what is covered. */
  lemma MaskedCovers(p: Prefix, v6: bool, a: nat)
    requires ValidPrefix(p)
    ensures ValidPrefix(Masked(p)) && (Covers(Masked(p), v6, a) <==> Covers(p, v6, a))
  {
    var k := p.addr / Block(p);
    DivBounds(p.addr, Block(p), k);
    Quotient(k * Block(p), Block(p), k);
  }

  /** A prefix without host bits covers the block of numbers it starts. */
  lemma CoversIff(p: Prefix, v6: bool, a: nat)
    requires ValidPrefix(p) && p.addr % Block(p) == 0
    ensures Covers(p, v6, a) <==> p.v6 == v6 && p.addr <= a < p.addr + Block(p)
  {
    SameBlock(p.addr, a, Block(p));
  }

  lemma SameBlock(x: nat, a: nat, b: nat)
    requires b > 0 && x % b == 0
    ensures a / b == x / b <==> x <= a < x + b
  {
    var k := x / b;
    WholeQuotient(x, b);
    DivBounds(a, b, a / b);
    if x <= a < x + b {
      Quotient(a, b, k);
    }
  }

  lemma WholeQuotient(x: nat, b: nat)
    requires b > 0 && x % b == 0
    ensures x / b * b == x
  {
  }

  /** Networks of one family and length that share an address are one, and masking tells: the host bits are gone. */
  lemma MaskedIsCanonical(p: Prefix, q: Prefix)
    requires ValidPrefix(p) && ValidPrefix(q) && p.v6 == q.v6 && p.bits == q.bits
    ensures Masked(p) == Masked(q) <==> Covers(p, q.v6, q.addr)
    ensures Masked(p).addr % Block(p) == 0 && Masked(p).bits == p.bits && Masked(p).v6 == p.v6
  {
    SameFloor(p.addr, q.addr, Block(p));
  }

  lemma SameFloor(x: nat, y: nat, b: nat)
    requires b > 0
    ensures (x / b * b == y / b * b <==> y / b == x / b) && x / b * b % b == 0
  {
    Multiple(x / b, b);
    SameMultiple(x / b, y / b, b);
  }

  lemma SameMultiple(k: nat, l: nat, b: nat)
    requires b > 0
    ensures k * b == l * b <==> k == l
  {
    Quotient(k * b, b, k);
    Quotient(l * b, b, l);
  }

  lemma Multiple(k: nat, b: nat)
    requires b > 0
    ensures k * b % b == 0
  {
    Quotient(k * b, b, k);
    DivBounds(k * b, b, k);
  }

  lemma Quotient(a: nat, b: nat, q: nat)
    requires b > 0 && q * b <= a < q * b + b
    ensures a / b == q
  {
    var k := a / b;
    DivBounds(a, b, k);
    if k < q {
      MulMono(k + 1, q, b);
    } else if k > q {
      MulMono(q + 1, k, b);
    }
  }

  predicate CoveredBy(prefixes: seq<Prefix>, v6: bool, a: nat) {
    exists p :: p in prefixes && Covers(p, v6, a)
  }
}

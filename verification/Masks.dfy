/**
 Subnet masks byte by byte against numbers: an address is in a subnet when both, read as big-endian
 numbers, agree above the host bits, and the broadcast address is the highest such number.
 */
module Masks {
  import opened Bytes
  import opened Routing
  import A = Addresses
  import P = Prefixes

  /** The bytes as one big-endian number. */
  function Number(s: seq<int>): (v: int)
    ensures (forall i :: 0 <= i < |s| ==> s[i] >= 0) ==> v >= 0
  {
    if s == [] then 0 else 0x100 * Number(s[..|s| - 1]) + s[|s| - 1]
  }

  /** Agreement of the first `bits` bits, byte by byte, as the code's mask does it. */
  predicate SamePrefix(s: seq<byte>, t: seq<byte>, bits: nat) {
    |s| == |t| && forall i :: 0 <= i < |s| ==> s[i] / HostPart(bits, i) == t[i] / HostPart(bits, i)
  }

  /** The number of values of the host bits of byte `i`. */
  function HostPart(bits: nat, i: nat): (h: nat)
    ensures h > 0
  {
    A.Pow2(8 - BitsIn(bits, i))
  }

  lemma Pow2Values()
    ensures A.Pow2(0) == 1 && A.Pow2(8) == 0x100
  {
  }

  // ---- Division --------------------------------------------------------------------------------------

  /** Host bytes drop out of a quotient. */
  lemma DropLow(x: nat, y: nat, d: nat)
    requires d > 0 && y < 0x100
    ensures (0x100 * x + y) / (0x100 * d) == x / d
  {
    var q := x / d;
    A.DivBounds(x, d, q);
    A.MulMono(q, q, d);
    assert q * (0x100 * d) == 0x100 * (q * d);
    P.Quotient(0x100 * x + y, 0x100 * d, q);
  }

  /** The byte in which the prefix ends. */
  lemma SplitLow(x: nat, y: nat, d: nat, e: nat)
    requires d > 0 && d * e == 0x100 && y < 0x100
    ensures (0x100 * x + y) / d == x * e + y / d && y / d < e
  {
    var q := y / d;
    A.DivBounds(y, d, q);
    assert (x * e + q) * d == x * (d * e) + q * d;
    P.Quotient(0x100 * x + y, d, x * e + q);
    if q >= e {
      A.MulMono(e, q, d);
    }
  }

  lemma UniqueSplit(x: nat, q: nat, x': nat, q': nat, e: nat)
    requires q < e && q' < e
    ensures x * e + q == x' * e + q' <==> x == x' && q == q'
  {
    if x < x' {
      A.MulMono(x + 1, x', e);
    } else if x' < x {
      A.MulMono(x' + 1, x, e);
    }
  }

  // ---- Containment -----------------------------------------------------------------------------------

  lemma {:induction false} NumberInjective(s: seq<byte>, t: seq<byte>)
    requires |s| == |t|
    ensures Number(s) == Number(t) <==> s == t
  {
    if s != [] {
      var n := |s| - 1;
      NumberInjective(s[..n], t[..n]);
      LowByte(Number(s[..n]), Number(t[..n]), s[n], t[n]);
      assert s == s[..n] + [s[n]] && t == t[..n] + [t[n]];
    }
  }

  lemma LowByte(x: int, y: int, b: byte, c: byte)
    ensures 0x100 * x + b == 0x100 * y + c <==> x == y && b == c
  {
  }

  lemma SamePrefixSnoc(s: seq<byte>, t: seq<byte>, bits: nat)
    requires |s| == |t| > 0
    ensures var n := |s| - 1;
            SamePrefix(s, t, bits) <==> SamePrefix(s[..n], t[..n], bits) && s[n] / HostPart(bits, n) == t[n] / HostPart(bits, n)
  {
  }

  /** The mask compares the numbers above the host bits, at every length of address and prefix. */
  lemma {:induction false} SamePrefixIff(s: seq<byte>, t: seq<byte>, bits: nat)
    requires |s| == |t| && bits <= 8 * |s|
    ensures SamePrefix(s, t, bits) <==> Number(s) / A.Pow2(8 * |s| - bits) == Number(t) / A.Pow2(8 * |s| - bits)
  {
    if s != [] {
      var n := |s| - 1;
      SamePrefixSnoc(s, t, bits);
      if bits <= 8 * n {
        SamePrefixIff(s[..n], t[..n], bits);
        HostByte(s, t, bits);
      } else {
        SplitByte(s, t, bits);
      }
    }
  }

  /** The last byte belongs to the host. */
  lemma HostByte(s: seq<byte>, t: seq<byte>, bits: nat)
    requires |s| == |t| > 0 && bits <= 8 * (|s| - 1)
    ensures var n, d := |s| - 1, A.Pow2(8 * (|s| - 1) - bits);
            && s[n] / HostPart(bits, n) == t[n] / HostPart(bits, n)
            && Number(s) / A.Pow2(8 * |s| - bits) == Number(s[..n]) / d
            && Number(t) / A.Pow2(8 * |s| - bits) == Number(t[..n]) / d
  {
    var n := |s| - 1;
    var d := A.Pow2(8 * n - bits);
    Pow2Values();
    A.Pow2Sum(8, 8 * n - bits);
    DropLow(Number(s[..n]), s[n], d);
    DropLow(Number(t[..n]), t[n], d);
  }

  /** The prefix ends in the last byte. */
  lemma SplitByte(s: seq<byte>, t: seq<byte>, bits: nat)
    requires |s| == |t| > 0 && 8 * (|s| - 1) < bits <= 8 * |s|
    ensures SamePrefix(s, t, bits) <==> Number(s) / A.Pow2(8 * |s| - bits) == Number(t) / A.Pow2(8 * |s| - bits)
  {
    var n := |s| - 1;
    var d, e := A.Pow2(8 * |s| - bits), A.Pow2(bits - 8 * n);
    Pow2Values();
    A.Pow2Sum(8 * |s| - bits, bits - 8 * n);
    SplitLow(Number(s[..n]), s[n], d, e);
    SplitLow(Number(t[..n]), t[n], d, e);
    UniqueSplit(Number(s[..n]), s[n] / d, Number(t[..n]), t[n] / d, e);
    NumberInjective(s[..n], t[..n]);
    assert forall i :: 0 <= i < n ==> HostPart(bits, i) == 1;
    assert SamePrefix(s, t, bits) <==> s[..n] == t[..n] && s[n] / d == t[n] / d by {
      SamePrefixSnoc(s, t, bits);
      WholeBytes(s[..n], t[..n], bits);
    }
  }

  lemma WholeBytes(s: seq<byte>, t: seq<byte>, bits: nat)
    requires |s| == |t| && 8 * |s| <= bits
    ensures SamePrefix(s, t, bits) <==> s == t
  {
    forall i | 0 <= i < |s| ensures HostPart(bits, i) == 1 && s[i] / 1 == s[i] && t[i] / 1 == t[i] {}
  }

  /** Containment as the code tests it is agreement of the numbers above the host bits. */
  lemma ContainsIff(net: Subnet, ip: seq<byte>)
    requires net.bits <= 8 * |net.ip|
    ensures Contains(net, ip) <==>
      && |Canonical(ip)| == |net.ip|
      && Number(Canonical(ip)) / A.Pow2(8 * |net.ip| - net.bits) == Number(net.ip) / A.Pow2(8 * |net.ip| - net.bits)
  {
    if |Canonical(ip)| == |net.ip| {
      SamePrefixIff(Canonical(ip), net.ip, net.bits);
    }
  }

  // ---- Broadcast -------------------------------------------------------------------------------------

  lemma BroadcastIsBytes(net: Subnet)
    ensures forall i :: 0 <= i < |net.ip| ==> 0 <= BroadcastOf(net)[i] < 0x100
  {
    forall i | 0 <= i < |net.ip| ensures 0 <= BroadcastOf(net)[i] < 0x100 {
      TopByte(net.ip[i], BitsIn(net.bits, i));
    }
  }

  lemma TopByte(b: byte, k: nat)
    requires k <= 8
    ensures var h := A.Pow2(8 - k); 0 <= b / h * h + h - 1 < 0x100
  {
    var h, e := A.Pow2(8 - k), A.Pow2(k);
    Pow2Values();
    A.Pow2Sum(8 - k, k);
    SplitLow(0, b, h, e);
    var q := b / h;
    A.MulMono(q + 1, e, h);
    A.DivBounds(b, h, q);
  }

  lemma BroadcastFront(net: Subnet)
    requires |net.ip| > 0
    ensures var n := |net.ip| - 1; BroadcastOf(net)[..n] == BroadcastOf(Subnet(net.ip[..n], net.bits))
  {
  }

  lemma BroadcastSnoc(net: Subnet)
    requires |net.ip| > 0
    ensures var n, h := |net.ip| - 1, HostPart(net.bits, |net.ip| - 1);
            && Number(net.ip) == 0x100 * Number(net.ip[..n]) + net.ip[n]
            && Number(BroadcastOf(net)) == 0x100 * Number(BroadcastOf(net)[..n]) + (net.ip[n] / h * h + h - 1)
            && BroadcastOf(net)[..n] == BroadcastOf(Subnet(net.ip[..n], net.bits))
  {
    BroadcastFront(net);
  }

  /** `x` with the host bits of a block of this size all ones. */
  predicate IsTop(top: int, x: int, size: int)
    requires size > 0
  {
    top == x / size * size + size - 1
  }

  /** The broadcast address is the number of the subnet whose host bits are all ones. */
  lemma {:induction false} BroadcastIs(net: Subnet)
    requires net.bits <= 8 * |net.ip|
    ensures IsTop(Number(BroadcastOf(net)), Number(net.ip), A.Pow2(8 * |net.ip| - net.bits))
    decreases |net.ip|
  {
    if net.ip == [] {
      assert BroadcastOf(net) == [] && A.Pow2(0) == 1 && IsTop(0, 0, 1);
    } else if net.bits <= 8 * (|net.ip| - 1) {
      var front := Subnet(net.ip[..|net.ip| - 1], net.bits);
      BroadcastIs(front);
      HostStep(net, front);
    } else {
      SplitStep(net);
    }
  }

  lemma HostStep(net: Subnet, front: Subnet)
    requires |net.ip| > 0 && net.bits <= 8 * (|net.ip| - 1) && front == Subnet(net.ip[..|net.ip| - 1], net.bits)
    requires IsTop(Number(BroadcastOf(front)), Number(front.ip), A.Pow2(8 * |front.ip| - net.bits))
    ensures IsTop(Number(BroadcastOf(net)), Number(net.ip), A.Pow2(8 * |net.ip| - net.bits))
  {
    BroadcastSnoc(net);
    HostByteIsTop(Number(BroadcastOf(front)), net.ip[|net.ip| - 1], Number(front.ip), net.bits, |net.ip|);
  }

  lemma SplitStep(net: Subnet)
    requires |net.ip| > 0 && 8 * (|net.ip| - 1) < net.bits <= 8 * |net.ip|
    ensures IsTop(Number(BroadcastOf(net)), Number(net.ip), A.Pow2(8 * |net.ip| - net.bits))
  {
    BroadcastSnoc(net);
    BroadcastFrontWhole(net);
    SplitByteIsTop(net.ip[|net.ip| - 1], Number(net.ip[..|net.ip| - 1]), net.bits, |net.ip|);
  }

  lemma HostByteIsTop(top: int, b: byte, x: nat, bits: nat, len: nat)
    requires len > 0 && bits <= 8 * (len - 1) && IsTop(top, x, A.Pow2(8 * (len - 1) - bits))
    ensures var h := HostPart(bits, len - 1); IsTop(0x100 * top + (b / h * h + h - 1), 0x100 * x + b, A.Pow2(8 * len - bits))
  {
    BroadcastHostByte(b, x, bits, len - 1);
  }

  lemma SplitByteIsTop(b: byte, x: nat, bits: nat, len: nat)
    requires len > 0 && 8 * (len - 1) < bits <= 8 * len
    ensures var h := HostPart(bits, len - 1); IsTop(0x100 * x + (b / h * h + h - 1), 0x100 * x + b, A.Pow2(8 * len - bits))
  {
    BroadcastSplitByte(b, x, bits, len - 1);
  }

  lemma BroadcastHostByte(b: byte, x: nat, bits: nat, n: nat)
    requires bits <= 8 * n
    ensures var h, d, size := HostPart(bits, n), A.Pow2(8 * n - bits), A.Pow2(8 * (n + 1) - bits);
            0x100 * (x / d * d + d - 1) + (b / h * h + h - 1) == (0x100 * x + b) / size * size + size - 1
  {
    var d := A.Pow2(8 * n - bits);
    Pow2Values();
    A.Pow2Sum(8, 8 * n - bits);
    DropLow(x, b, d);
    var q := x / d;
    assert q * (0x100 * d) == 0x100 * (q * d);
    assert b / 0x100 == 0;
  }

  lemma BroadcastSplitByte(b: byte, x: nat, bits: nat, n: nat)
    requires 8 * n < bits <= 8 * (n + 1)
    ensures var h, size := HostPart(bits, n), A.Pow2(8 * (n + 1) - bits);
            0x100 * x + (b / h * h + h - 1) == (0x100 * x + b) / size * size + size - 1
  {
    var d, e := A.Pow2(8 * (n + 1) - bits), A.Pow2(bits - 8 * n);
    Pow2Values();
    A.Pow2Sum(8 * (n + 1) - bits, bits - 8 * n);
    SplitLow(x, b, d, e);
    Distribute(x, b / d, d, e);
  }

  lemma Distribute(x: nat, q: nat, d: nat, e: nat)
    requires d * e == 0x100
    ensures (x * e + q) * d == 0x100 * x + q * d
  {
    assert (x * e + q) * d == x * (d * e) + q * d;
  }

  lemma BroadcastFrontWhole(net: Subnet)
    requires |net.ip| > 0 && 8 * (|net.ip| - 1) < net.bits
    ensures BroadcastOf(net)[..|net.ip| - 1] == net.ip[..|net.ip| - 1]
  {
    var n := |net.ip| - 1;
    forall i | 0 <= i < n ensures BroadcastOf(net)[i] == net.ip[i] {
      assert BitsIn(net.bits, i) == 8;
    }
  }
}

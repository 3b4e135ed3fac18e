/** The lists of networks in the code, as ranges of addresses. */
module Ranges {
  import opened Addresses
  import opened Prefixes
  import N = LinuxNat
  import W = WindowsSplit

  lemma Pow2Values()
    ensures Pow2(8) == 0x100 && Pow2(16) == 0x1_0000 && Pow2(20) == 0x10_0000 && Pow2(22) == 0x40_0000 && Pow2(24) == 0x100_0000
    ensures Pow2(28) == 0x1000_0000 && Pow2(32) == 0x1_0000_0000
  {
    assert Pow2(8) == 0x100;
    assert Pow2(16) == 0x1_0000;
    assert Pow2(24) == 0x100_0000;
  }

  lemma Pow2Large()
    ensures Pow2(118) == 0x40_0000_0000_0000_0000_0000_0000_0000
    ensures Pow2(120) == 0x100_0000_0000_0000_0000_0000_0000_0000
    ensures Pow2(121) == 0x200_0000_0000_0000_0000_0000_0000_0000
    ensures Pow2(128) == 0x1_0000_0000_0000_0000_0000_0000_0000_0000
  {
    Pow2Values();
    Pow2Sum(32, 32);
    Pow2Sum(64, 32);
    Pow2Sum(96, 22);
    Pow2Sum(118, 2);
    Pow2Sum(120, 8);
    assert Pow2(2) == 4;
    assert Pow2(121) == 2 * Pow2(120);
  }

  /** The private destinations an exit node refuses to forward to. */
  predicate Private4(a: nat) {
    || 0x0a00_0000 <= a <= 0x0aff_ffff
    || 0xac10_0000 <= a <= 0xac1f_ffff
    || 0xc0a8_0000 <= a <= 0xc0a8_ffff
    || 0x6440_0000 <= a <= 0x647f_ffff
    || 0xa9fe_0000 <= a <= 0xa9fe_ffff
  }

  predicate Private6(a: nat) {
    || 0xfc00_0000_0000_0000_0000_0000_0000_0000 <= a < 0xfe00_0000_0000_0000_0000_0000_0000_0000
    || 0xfe80_0000_0000_0000_0000_0000_0000_0000 <= a < 0xfec0_0000_0000_0000_0000_0000_0000_0000
  }

  lemma PrefixRange(p: Prefix, block: nat, v6: bool, a: nat)
    requires p.bits <= Width(p.v6) && Pow2(Width(p.v6) - p.bits) == block && 0 <= p.addr < Pow2(Width(p.v6)) && p.addr % block == 0
    ensures Covers(p, v6, a) <==> p.v6 == v6 && p.addr <= a < p.addr + block
  {
    CoversIff(p, v6, a);
  }

  lemma PrivateRanges4(a: nat)
    ensures CoveredBy(N.PRIVATE_SUBNETS, false, a) <==> Private4(a)
  {
    var s := N.PRIVATE_SUBNETS;
    Pow2Values();
    PrefixRange(s[0], 0x100_0000, false, a);
    PrefixRange(s[1], 0x10_0000, false, a);
    PrefixRange(s[2], 0x1_0000, false, a);
    PrefixRange(s[3], 0x40_0000, false, a);
    PrefixRange(s[4], 0x1_0000, false, a);
    AnyOf5(s, false, a);
  }

  lemma UniqueLocal(a: nat)
    ensures Covers(Prefix(true, 0xfc00_0000_0000_0000_0000_0000_0000_0000, 7), true, a)
            <==> 0xfc00_0000_0000_0000_0000_0000_0000_0000 <= a < 0xfe00_0000_0000_0000_0000_0000_0000_0000
  {
    Pow2Large();
    PrefixRange(Prefix(true, 0xfc00_0000_0000_0000_0000_0000_0000_0000, 7), 0x200_0000_0000_0000_0000_0000_0000_0000, true, a);
  }

  lemma LinkLocal(a: nat)
    ensures Covers(Prefix(true, 0xfe80_0000_0000_0000_0000_0000_0000_0000, 10), true, a)
            <==> 0xfe80_0000_0000_0000_0000_0000_0000_0000 <= a < 0xfec0_0000_0000_0000_0000_0000_0000_0000
  {
    Pow2Large();
    PrefixRange(Prefix(true, 0xfe80_0000_0000_0000_0000_0000_0000_0000, 10), 0x40_0000_0000_0000_0000_0000_0000_0000, true, a);
  }

  lemma Multicast(a: nat)
    ensures Covers(Prefix(true, 0xff00_0000_0000_0000_0000_0000_0000_0000, 8), true, a)
            <==> 0xff00_0000_0000_0000_0000_0000_0000_0000 <= a < 0x1_0000_0000_0000_0000_0000_0000_0000_0000
  {
    Pow2Large();
    PrefixRange(Prefix(true, 0xff00_0000_0000_0000_0000_0000_0000_0000, 8), 0x100_0000_0000_0000_0000_0000_0000_0000, true, a);
  }

  lemma Loopback(a: nat)
    ensures Covers(Prefix(true, 1, 128), true, a) <==> a == 1
  {
    Pow2Large();
    assert Pow2(0) == 1;
    PrefixRange(Prefix(true, 1, 128), 1, true, a);
  }

  lemma PrivateRanges6(a: nat)
    ensures CoveredBy(N.PRIVATE_SUBNETS_V6, true, a) <==> Private6(a)
  {
    var s := N.PRIVATE_SUBNETS_V6;
    UniqueLocal(a);
    LinkLocal(a);
    assert s[0] in s && s[1] in s;
  }

  lemma AnyOf5(s: seq<Prefix>, v6: bool, a: nat)
    requires |s| == 5
    ensures CoveredBy(s, v6, a) <==>
      Covers(s[0], v6, a) || Covers(s[1], v6, a) || Covers(s[2], v6, a) || Covers(s[3], v6, a) || Covers(s[4], v6, a)
  {
    assert s[0] in s && s[1] in s && s[2] in s && s[3] in s && s[4] in s;
  }

  /** What an exit node forwards for its clients: replies, and everything that is not to a private address. */
  lemma ExitForwards(f: N.Family, v6: bool, established: bool, dst: nat, fromAwl: bool, toAwl: bool, host: N.HostRules)
    requires N.AwlFree(f) && (fromAwl || toAwl)
    ensures var g := N.Installed(f, if v6 then N.PRIVATE_SUBNETS_V6 else N.PRIVATE_SUBNETS);
            N.Forwarded(g.forwardRules, g.chain.value, N.Packet(established, v6, dst), fromAwl, toAwl, host) ==
            if !established && (if v6 then Private6(dst) else Private4(dst)) then N.Dropped else N.Accepted
  {
    var privates := if v6 then N.PRIVATE_SUBNETS_V6 else N.PRIVATE_SUBNETS;
    N.ServedTraffic(f, privates, N.Packet(established, v6, dst), fromAwl, toAwl, host);
    if v6 {
      PrivateRanges6(dst);
    } else {
      PrivateRanges4(dst);
    }
  }

  // ---- The destinations the Windows fence leaves alone -------------------------------------------------

  lemma LocalRanges4(a: nat)
    ensures CoveredBy(W.LocalDst(false), false, a) <==>
      Private4(a) || 0x7f00_0000 <= a <= 0x7fff_ffff || 0xe000_0000 <= a <= 0xefff_ffff || a == 0xffff_ffff
  {
    var s := W.LOCAL_DST4;
    CoveredSplit(s, 3, false, a);
    LocalFront(s[..3], a);
    LocalBack(s[3..], a);
  }

  lemma CoveredSplit(s: seq<Prefix>, n: nat, v6: bool, a: nat)
    requires n <= |s|
    ensures CoveredBy(s, v6, a) <==> CoveredBy(s[..n], v6, a) || CoveredBy(s[n..], v6, a)
  {
    assert s == s[..n] + s[n..];
  }

  lemma LocalFront(s: seq<Prefix>, a: nat)
    requires s == W.LOCAL_DST4[..3]
    ensures CoveredBy(s, false, a) <==>
      0x7f00_0000 <= a <= 0x7fff_ffff || 0x0a00_0000 <= a <= 0x0aff_ffff || 0xac10_0000 <= a <= 0xac1f_ffff
  {
    Pow2Values();
    PrefixRange(s[0], 0x100_0000, false, a);
    PrefixRange(s[1], 0x100_0000, false, a);
    PrefixRange(s[2], 0x10_0000, false, a);
    assert s[0] in s && s[1] in s && s[2] in s;
  }

  lemma LocalBack(s: seq<Prefix>, a: nat)
    requires s == W.LOCAL_DST4[3..]
    ensures CoveredBy(s, false, a) <==>
      || 0xc0a8_0000 <= a <= 0xc0a8_ffff || 0x6440_0000 <= a <= 0x647f_ffff || 0xa9fe_0000 <= a <= 0xa9fe_ffff
      || 0xe000_0000 <= a <= 0xefff_ffff || a == 0xffff_ffff
  {
    Pow2Values();
    assert Pow2(0) == 1;
    PrefixRange(s[0], 0x1_0000, false, a);
    PrefixRange(s[1], 0x40_0000, false, a);
    PrefixRange(s[2], 0x1_0000, false, a);
    PrefixRange(s[3], 0x1000_0000, false, a);
    PrefixRange(s[4], 1, false, a);
    AnyOf5(s, false, a);
  }

  lemma LocalRanges6(a: nat)
    ensures CoveredBy(W.LocalDst(true), true, a) <==>
      Private6(a) || a == 1 || 0xff00_0000_0000_0000_0000_0000_0000_0000 <= a < 0x1_0000_0000_0000_0000_0000_0000_0000_0000
  {
    var s := W.LOCAL_DST6;
    Loopback(a);
    LinkLocal(a);
    UniqueLocal(a);
    Multicast(a);
    assert s[0] in s && s[1] in s && s[2] in s && s[3] in s;
  }
}

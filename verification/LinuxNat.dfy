/**
 The exit node's forwarding and NAT on Linux (vpn/netstate/nat_linux.go, vpn/netstate/manager_linux.go)
 over a model of the kernel: per family the forwarding switch, the awl chain, and the FORWARD and
 POSTROUTING chains with the host's own rules.  Any call that adds or queries may fail; a call that
 removes something present succeeds.
 */
module LinuxNat {
  import opened Wrappers
  import opened Prefixes

  datatype Rule = Conntrack | Drop(subnet: Prefix) | Accept | Outbound | Return | Masquerade | HostRule(n: nat)

  /** `forward` is the sysctl value, 0 when forwarding is off. */
  datatype Family = Family(forward: nat, chain: Option<seq<Rule>>, forwardRules: seq<Rule>, postrouting: seq<Rule>)

  const PRIVATE_SUBNETS: seq<Prefix> :=
    [Prefix(false, 0x0a00_0000, 8), Prefix(false, 0xac10_0000, 12), Prefix(false, 0xc0a8_0000, 16),
     Prefix(false, 0x6440_0000, 10), Prefix(false, 0xa9fe_0000, 16)]
  const PRIVATE_SUBNETS_V6: seq<Prefix> :=
    [Prefix(true, 0xfc00_0000_0000_0000_0000_0000_0000_0000, 7), Prefix(true, 0xfe80_0000_0000_0000_0000_0000_0000_0000, 10)]

  /** Whether each fallible call in turn works. */
  type Faults = nat -> bool

  ghost predicate AllWork(faults: Faults) { forall i :: faults(i) }

  /** Nothing of awl's is there. */
  predicate AwlFree(f: Family) {
    f.chain.None? && Outbound !in f.forwardRules && Return !in f.forwardRules && Masquerade !in f.postrouting
  }

  function Drops(privates: seq<Prefix>): seq<Rule> {
    seq(|privates|, i requires 0 <= i < |privates| => Drop(privates[i]))
  }

  /** The awl chain: replies first, then no private destination, then everything else. */
  function AwlChain(privates: seq<Prefix>): seq<Rule> {
    [Conntrack] + Drops(privates) + [Accept]
  }

  /** A family with awl's rules on top of the host's. */
  function Installed(f: Family, privates: seq<Prefix>): Family {
    Family(if f.forward == 0 then 1 else f.forward, Some(AwlChain(privates)),
           [Return, Outbound] + f.forwardRules, f.postrouting + [Masquerade])
  }

  // ---- Removing rules --------------------------------------------------------------------------------

  /** DeleteIfExists: the first matching rule, if any. */
  function Without(rules: seq<Rule>, r: Rule): (out: seq<Rule>)
    ensures r !in rules ==> out == rules
  {
    if rules == [] then [] else if rules[0] == r then rules[1..] else [rules[0]] + Without(rules[1..], r)
  }

  lemma {:induction false} WithoutLast(rules: seq<Rule>, r: Rule)
    requires r !in rules
    ensures Without(rules + [r], r) == rules
  {
    if rules == [] {
      assert rules + [r] == [r];
    } else {
      assert (rules + [r])[1..] == rules[1..] + [r];
      WithoutLast(rules[1..], r);
    }
  }

  /** teardownIptablesRules. */
  method TeardownRules(f: Family) returns (g: Family)
    ensures g == f.(chain := None, postrouting := Without(f.postrouting, Masquerade),
                    forwardRules := Without(Without(f.forwardRules, Return), Outbound))
  {
    g := f.(postrouting := Without(f.postrouting, Masquerade));
    g := g.(forwardRules := Without(g.forwardRules, Return));
    g := g.(forwardRules := Without(g.forwardRules, Outbound));
    if g.chain.Some? {
      g := g.(chain := Some([]));
      g := g.(chain := None);
    }
  }

  /** What is left once the rules of an earlier process, betrayed by the chain, are gone. */
  function Swept(f: Family): Family {
    if f.chain.None? then f
    else f.(chain := None, postrouting := Without(f.postrouting, Masquerade),
            forwardRules := Without(Without(f.forwardRules, Return), Outbound))
  }

  /** cleanupStaleNAT: the chain's presence betrays an earlier process; looking for it may fail. */
  method CleanupStale(f: Family, faults: Faults, tick: nat) returns (g: Family, ok: bool)
    ensures ok == faults(tick)
    ensures g == if ok then Swept(f) else f
  {
    if !faults(tick) {
      return f, false;
    }
    g, ok := f, true;
    if f.chain.Some? {
      g := TeardownRules(f);
    }
  }

  // ---- Adding rules ----------------------------------------------------------------------------------

  /** What tearing down has to cope with: any prefix of the rules being there. */
  predicate Partial(f: Family, g: Family) {
    && g.forward == f.forward
    && (g.forwardRules == f.forwardRules || g.forwardRules == [Outbound] + f.forwardRules
        || g.forwardRules == [Return, Outbound] + f.forwardRules)
    && (g.postrouting == f.postrouting || g.postrouting == f.postrouting + [Masquerade])
  }

  method SetupRules(f: Family, privates: seq<Prefix>, faults: Faults, tick: nat) returns (g: Family, ok: bool, tock: nat)
    requires AwlFree(f)
    ensures Partial(f, g)
    ensures ok ==> g == Installed(f, privates).(forward := f.forward)
    ensures AllWork(faults) ==> ok
  {
    g, tock := f, tick + 1;
    if !faults(tick) {
      return g, false, tock;
    }
    g := g.(chain := Some([]));
    g, ok, tock := FillChain(g, privates, faults, tock);
    if !ok || !faults(tock) {
      return g, false, tock + 1;
    }
    g := g.(forwardRules := [Outbound] + g.forwardRules);
    if !faults(tock + 1) {
      return g, false, tock + 2;
    }
    g := g.(forwardRules := [Return] + g.forwardRules);
    assert g.forwardRules == [Return, Outbound] + f.forwardRules;
    if !faults(tock + 2) {
      return g, false, tock + 3;
    }
    g := g.(postrouting := g.postrouting + [Masquerade]);
    return g, true, tock + 3;
  }

  method FillChain(f: Family, privates: seq<Prefix>, faults: Faults, tick: nat) returns (g: Family, ok: bool, tock: nat)
    requires f.chain == Some([])
    ensures g == f.(chain := g.chain) && g.chain.Some?
    ensures ok ==> g.chain == Some(AwlChain(privates))
    ensures AllWork(faults) ==> ok
  {
    g, tock := f, tick + 1;
    if !faults(tick) {
      return g, false, tock;
    }
    g := g.(chain := Some([Conntrack]));
    assert [Conntrack] + Drops(privates[..0]) == [Conntrack];
    for i := 0 to |privates|
      invariant g == f.(chain := Some([Conntrack] + Drops(privates[..i])))
    {
      if !faults(tock) {
        return g, false, tock + 1;
      }
      tock := tock + 1;
      assert [Conntrack] + Drops(privates[..i + 1]) == g.chain.value + [Drop(privates[i])];
      g := g.(chain := Some(g.chain.value + [Drop(privates[i])]));
    }
    assert privates[..|privates|] == privates;
    if !faults(tock) {
      return g, false, tock + 1;
    }
    g := g.(chain := Some(g.chain.value + [Accept]));
    return g, true, tock + 1;
  }

  /** Tearing down a half-built setup gives the family back as it was. */
  lemma TeardownUndoes(f: Family, g: Family)
    requires AwlFree(f) && Partial(f, g)
    ensures Without(g.postrouting, Masquerade) == f.postrouting
    ensures Without(Without(g.forwardRules, Return), Outbound) == f.forwardRules
  {
    WithoutLast(f.postrouting, Masquerade);
    var host := f.forwardRules;
    assert ([Outbound] + host)[1..] == host && ([Return, Outbound] + host)[1..] == [Outbound] + host;
    assert Without([Outbound] + host, Outbound) == host;
    assert Return !in [Outbound] + host;
  }

  // ---- Setup and teardown ----------------------------------------------------------------------------

  /** What is remembered for teardown. */
  datatype NatState = NatState(forward4: nat, forward6: nat, ok6: bool)

  /** setupNATv6: a failure leaves the family as it was, leftovers of an earlier process aside. */
  method SetupNat6(f: Family, faults: Faults, tick: nat) returns (g: Family, ok: bool)
    requires AwlFree(Swept(f))
    ensures if ok then g == Installed(Swept(f), PRIVATE_SUBNETS_V6) else g == f || g == Swept(f)
    ensures AllWork(faults) ==> ok
  {
    g, ok := f, false;
    if !faults(tick) || (f.forward == 0 && !faults(tick + 1)) {
      return;
    }
    if f.forward == 0 {
      g := g.(forward := 1);
    }
    if faults(tick + 2) {
      var clean;
      g, clean := CleanupStale(g, faults, tick + 3);
      if clean {
        ghost var on := g;
        var tock;
        g, ok, tock := SetupRules(g, PRIVATE_SUBNETS_V6, faults, tick + 4);
        if ok {
          return;
        }
        TeardownUndoes(on, g);
        g := TeardownRules(g);
      }
    }
    if f.forward == 0 {
      g := g.(forward := 0);
    }
  }

  /**
   setupNAT.  If it fails nothing has changed; if it succeeds IPv4 is installed, and IPv6 is either
   installed too or as it was before.  Leftovers of an earlier process may go either way.
   */
  method SetupNat(k4: Family, k6: Family, with6: bool, faults: Faults)
      returns (g4: Family, g6: Family, st: Option<NatState>)
    requires AwlFree(Swept(k4)) && AwlFree(Swept(k6))
    ensures st.None? ==> (g4 == k4 || g4 == Swept(k4)) && g6 == k6
    ensures st.Some? ==> st.value.forward4 == k4.forward && g4 == Installed(Swept(k4), PRIVATE_SUBNETS)
    ensures st.Some? ==> if st.value.ok6 then g6 == Installed(Swept(k6), PRIVATE_SUBNETS_V6) else g6 == k6 || g6 == Swept(k6)
    ensures st.Some? && st.value.ok6 ==> with6 && st.value.forward6 == k6.forward
    ensures AllWork(faults) ==> st.Some? && st.value.ok6 == with6
  {
    g4, g6, st := k4, k6, None;
    if !faults(0) {
      return;
    }
    var clean;
    g4, clean := CleanupStale(g4, faults, 1);
    if !clean || !faults(2) || (k4.forward == 0 && !faults(3)) {
      return;
    }
    if k4.forward == 0 {
      g4 := g4.(forward := 1);
    }
    ghost var on := g4;
    var ok, tick;
    g4, ok, tick := SetupRules(g4, PRIVATE_SUBNETS, faults, 4);
    if !ok {
      TeardownUndoes(on, g4);
      g4 := TeardownRules(g4);
      if k4.forward == 0 {
        g4 := g4.(forward := 0);
      }
      return;
    }
    var ok6 := false;
    if with6 {
      g6, ok6 := SetupNat6(g6, faults, tick);
    }
    st := Some(NatState(k4.forward, k6.forward, ok6));
  }

  method TeardownNat(g4: Family, g6: Family, st: NatState, ghost k4: Family, ghost k6: Family) returns (h4: Family, h6: Family)
    requires AwlFree(k4) && st.forward4 == k4.forward && g4 == Installed(k4, PRIVATE_SUBNETS)
    requires AwlFree(k6) && g6 == (if st.ok6 then Installed(k6, PRIVATE_SUBNETS_V6) else k6)
    requires st.ok6 ==> st.forward6 == k6.forward
    ensures h4 == k4 && h6 == k6
  {
    TeardownUndoes(k4.(forward := g4.forward), g4);
    h4 := TeardownRules(g4);
    h6 := g6;
    if st.ok6 {
      TeardownUndoes(k6.(forward := g6.forward), g6);
      h6 := TeardownRules(g6);
    }
    if st.forward4 == 0 {
      h4 := h4.(forward := 0);
    }
    if st.ok6 && st.forward6 == 0 {
      h6 := h6.(forward := 0);
    }
  }

  class Manager {
    var k4: Family
    var k6: Family
    var state: Option<NatState>
    /** The kernel without awl. */
    ghost var host4: Family
    ghost var host6: Family

    ghost predicate Valid()
      reads this
    {
      && AwlFree(host4) && AwlFree(host6)
      && match state
         case None => k4 == host4 && k6 == host6
         case Some(st) =>
           && st.forward4 == host4.forward && k4 == Installed(host4, PRIVATE_SUBNETS)
           && k6 == (if st.ok6 then Installed(host6, PRIVATE_SUBNETS_V6) else host6)
           && (st.ok6 ==> st.forward6 == host6.forward)
    }

    constructor (k4: Family, k6: Family)
      requires AwlFree(k4) && AwlFree(k6)
      ensures Valid() && state.None? && this.k4 == k4 && this.k6 == k6
    {
      this.k4, this.k6, host4, host6, state := k4, k6, k4, k6, None;
    }

    method EnableServerNAT(with6: bool, faults: Faults) returns (ok: bool)
      requires Valid()
      modifies `k4, `k6, `state
      ensures Valid() && (ok <==> state.Some?)
      ensures !ok || old(state).Some? ==> unchanged(this)
      ensures AllWork(faults) ==> ok && (old(state).None? ==> state.value.ok6 == with6)
    {
      if state.Some? {
        return true;
      }
      k4, k6, state := SetupNat(k4, k6, with6, faults);
      ok := state.Some?;
    }

    /** Disabling gives the kernel back exactly as it was before enabling. */
    method DisableServerNAT()
      requires Valid()
      modifies `k4, `k6, `state
      ensures Valid() && state.None? && k4 == host4 && k6 == host6
    {
      if state.Some? {
        var st := state.value;
        state := None;
        k4, k6 := TeardownNat(k4, k6, st, host4, host6);
      }
    }
  }

  // ---- What the chain lets through -------------------------------------------------------------------

  /** A forwarded packet: whether it answers an earlier one, and where it is going. */
  datatype Packet = Packet(established: bool, v6: bool, dst: nat)

  datatype Verdict = Accepted | Dropped | NoMatch

  function Evaluate(rules: seq<Rule>, p: Packet): Verdict {
    if rules == [] then NoMatch
    else match rules[0]
         case Conntrack => if p.established then Accepted else Evaluate(rules[1..], p)
         case Drop(subnet) => if Covers(subnet, p.v6, p.dst) then Dropped else Evaluate(rules[1..], p)
         case Accept => Accepted
         case _ => Evaluate(rules[1..], p)
  }

  lemma {:induction false} EvaluateDrops(privates: seq<Prefix>, p: Packet)
    ensures Evaluate(Drops(privates) + [Accept], p) ==
      if CoveredBy(privates, p.v6, p.dst) then Dropped else Accepted
  {
    var rules := Drops(privates) + [Accept];
    if privates != [] {
      EvaluateDrops(privates[1..], p);
      assert rules[1..] == Drops(privates[1..]) + [Accept];
      assert forall s :: s in privates <==> s == privates[0] || s in privates[1..];
    }
  }

  /** The chain decides every packet: replies pass, new flows pass exactly if their destination is public. */
  lemma ChainVerdict(privates: seq<Prefix>, p: Packet)
    ensures Evaluate(AwlChain(privates), p) ==
      if !p.established && CoveredBy(privates, p.v6, p.dst) then Dropped else Accepted
  {
    EvaluateDrops(privates, p);
    assert AwlChain(privates)[1..] == Drops(privates) + [Accept];
  }

  // ---- What the kernel forwards ------------------------------------------------------------------------

  /** What the host's own rules say. */
  type HostRules = nat -> Verdict

  /** The FORWARD chain, rule by rule: traffic from awl and traffic to awl jump to the awl chain. */
  function Forwarded(rules: seq<Rule>, chain: seq<Rule>, p: Packet, fromAwl: bool, toAwl: bool, host: HostRules): Verdict {
    if rules == [] then NoMatch
    else
      var first :=
        match rules[0]
        case Return => if toAwl then Evaluate(chain, p) else NoMatch
        case Outbound => if fromAwl then Evaluate(chain, p) else NoMatch
        case HostRule(n) => host(n)
        case _ => NoMatch;
      if first != NoMatch then first else Forwarded(rules[1..], chain, p, fromAwl, toAwl, host)
  }

  /**
   With the gateway on: forwarding is on and what leaves is masqueraded; traffic of awl in either
   direction is decided by the awl chain before any rule of the host, and everything else by the host's
   rules as before.
   */
  lemma ServedTraffic(f: Family, privates: seq<Prefix>, p: Packet, fromAwl: bool, toAwl: bool, host: HostRules)
    requires AwlFree(f)
    ensures var g := Installed(f, privates);
            && g.forward != 0 && Masquerade in g.postrouting && g.chain.Some?
            && (forall r :: r in f.postrouting ==> r in g.postrouting)
            && Forwarded(g.forwardRules, g.chain.value, p, fromAwl, toAwl, host) ==
               if fromAwl || toAwl then (if !p.established && CoveredBy(privates, p.v6, p.dst) then Dropped else Accepted)
               else Forwarded(f.forwardRules, [], p, false, false, host)
  {
    var g := Installed(f, privates);
    ChainVerdict(privates, p);
    assert g.forwardRules[1..] == [Outbound] + f.forwardRules && g.forwardRules[1..][1..] == f.forwardRules;
    assert g.postrouting[|f.postrouting|] == Masquerade;
    if !fromAwl && !toAwl {
      HostAlone(f.forwardRules, g.chain.value, p, host);
    }
  }

  lemma {:induction false} HostAlone(rules: seq<Rule>, chain: seq<Rule>, p: Packet, host: HostRules)
    ensures Forwarded(rules, chain, p, false, false, host) == Forwarded(rules, [], p, false, false, host)
  {
    if rules != [] {
      HostAlone(rules[1..], chain, p, host);
    }
  }
}

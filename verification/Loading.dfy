/**
 What loading a stored configuration establishes (the KnownPeers part of setDefaults, config/other.go):
 the reserved DNS address, distinct aliases and an address for every peer.
 */
module Loading {
  import opened Wrappers
  import opened Addresses
  import opened Aliases
  import opened Membership

  /** An address the DNS server could take: the check looks for its dotted text alone. */
  predicate Candidate(c: Conf, a: Address)
    requires ValidSubnet(c.subnet)
  {
    Network(c.subnet) < a < Broadcast(c.subnet) && AddressUsable(c.(dns := None), Dotted(a), "")
  }

  /** The highest candidate, or none when there is none. */
  ghost predicate IsDns(c: Conf, r: Option<Address>)
    requires ValidSubnet(c.subnet)
  {
    && (r.Some? ==> Candidate(c, r.value))
    && forall a: Address :: Candidate(c, a) ==> r.Some? && a <= r.value
  }

  /** An inner address that is neither the node's own nor some peer's dotted text. */
  predicate Inner(c: Conf, a: Address)
    requires ValidSubnet(c.subnet)
  {
    && c.subnet.local / Size(c.subnet) * Size(c.subnet) < a
    && a + 1 < c.subnet.local / Size(c.subnet) * Size(c.subnet) + Size(c.subnet)
    && a != c.subnet.local && forall id :: id in c.peers ==> c.peers[id].ip != Dotted(a)
  }

  /** The DNS server takes the highest inner address that is free, and goes without one only if there is none. */
  lemma DnsIsHighest(c: Conf, r: Option<Address>)
    requires ValidSubnet(c.subnet) && IsDns(c, r)
    ensures match r
            case Some(d) => Inner(c, d) && forall a: Address :: a > d ==> !Inner(c, a)
            case None => forall a: Address :: !Inner(c, a)
  {
    forall a: Address ensures Candidate(c, a) <==> Inner(c, a) {
    }
  }

  lemma DnsIsUnique(c: Conf, r: Option<Address>, r': Option<Address>)
    requires ValidSubnet(c.subnet) && IsDns(c, r) && IsDns(c, r')
    ensures r == r'
  {
  }

  /** No peer lacks an alias, and no two share one. */
  predicate AliasesProper(c: Conf) {
    && (forall id :: id in c.peers ==> c.peers[id].alias != "")
    && forall id, id' :: id in c.peers && id' in c.peers && id != id' ==> c.peers[id].alias != c.peers[id'].alias
  }

  predicate Unaddressed(c: Conf, id: string) { id in c.peers && c.peers[id].ip.Unset? }

  function Missing(c: Conf): set<string> {
    set id | id in c.peers && Unaddressed(c, id)
  }

  /** How one peer may change: its alias is made unique, and an address is filled in where the text was empty. */
  predicate Completed(was: KnownPeer, now: KnownPeer, dns: Option<Address>) {
    && now == was.(alias := now.alias, ip := now.ip)
    && if was.ip.Unset? then now.ip.Spelled? && now.ip.form == 0 && Some(now.ip.value) != dns else now.ip == was.ip
  }

  ghost predicate Loaded(c: Conf, c': Conf)
    requires ValidSubnet(c.subnet)
  {
    && c' == c.(dns := c'.dns, peers := c'.peers) && IsDns(c, c'.dns)
    && c'.peers.Keys == c.peers.Keys
    && (forall id :: id in c.peers ==> Completed(c.peers[id], c'.peers[id], c'.dns))
    && AliasesProper(c')
    && (AliasesProper(c) ==> forall id :: id in c.peers ==> c'.peers[id].alias == c.peers[id].alias)
  }

  /** Loading what was loaded before changes nothing: not an alias, not an address, not the DNS address. */
  lemma LoadIsIdempotent(c: Conf, c': Conf, c'': Conf)
    requires ValidSubnet(c.subnet) && Loaded(c, c') && Loaded(c', c'')
    ensures c'' == c'
  {
    DnsIsStable(c, c', c''.dns);
    forall id | id in c'.peers ensures c''.peers[id] == c'.peers[id] {
      assert Completed(c'.peers[id], c''.peers[id], c''.dns);
      assert Completed(c.peers[id], c'.peers[id], c'.dns);
    }
    assert c''.peers == c'.peers;
  }

  lemma DnsIsStable(c: Conf, c': Conf, dns: Option<Address>)
    requires ValidSubnet(c.subnet) && Loaded(c, c') && IsDns(c', dns)
    ensures dns == c'.dns
  {
    forall a: Address | Candidate(c', a) ensures Candidate(c, a) { FewerCandidates(c, c', a); }
    if c'.dns.Some? {
      StillCandidate(c, c', c'.dns.value);
    }
  }

  lemma FewerCandidates(c: Conf, c': Conf, a: Address)
    requires ValidSubnet(c.subnet) && Loaded(c, c') && Candidate(c', a)
    ensures Candidate(c, a)
  {
  }

  lemma StillCandidate(c: Conf, c': Conf, a: Address)
    requires ValidSubnet(c.subnet) && Loaded(c, c') && Candidate(c, a) && c'.dns == Some(a)
    ensures Candidate(c', a)
  {
  }

  // ---- Is there an address for everyone? -----------------------------------------------------------

  /** How many addresses are left between `m` and `top`, without the reserved one. */
  function Gap(m: int, top: int, dns: Option<Address>): int {
    if m >= top then 0 else top - 1 - m - (if dns.Some? && m < dns.value < top then 1 else 0)
  }

  /** How many addresses are left above the highest one in use. */
  function FreeAbove(c: Conf, m: Address): int
    requires ValidSubnet(c.subnet)
  {
    Gap(m, Broadcast(c.subnet), c.dns)
  }

  lemma NextClosesGap(m: Address, top: int, dns: Option<Address>, excluded: set<int>, i: nat)
    requires m < top < SPACE && IsFirstFree(m, excluded, i)
    requires excluded == {top} + if dns.Some? then {dns.value as int} else {}
    requires exists b :: m < b < top && b !in excluded
    ensures m < After(m, i) && Gap(After(m, i), top, dns) == Gap(m, top, dns) - 1
  {
    FirstFreeStaysBelow(m, top, excluded, i);
    assert i > 1 ==> m + 1 in excluded;
    assert i > 2 ==> m + 2 in excluded;
  }

  /** One more address when the search can come back to an unused one below. */
  function Spare(c: Conf, m: Address): int
    requires ValidSubnet(c.subnet)
  {
    if c.subnet.bits == 0 && WrapsTo(c) <= m && !InUse(c, WrapsTo(c)) then 1 else 0
  }

  /** How many peers can be given a proper address, one after the other. */
  function Capacity(c: Conf, m: Address): int
    requires ValidSubnet(c.subnet)
  {
    FreeAbove(c, m) + Spare(c, m)
  }

  lemma RoomAboveIffFree(c: Conf, m: Address)
    requires ValidSubnet(c.subnet) && IsMaxInUse(c, m)
    ensures FreeAbove(c, m) >= 0 && (RoomAbove(c) <==> FreeAbove(c, m) > 0)
  {
    var top := Broadcast(c.subnet);
    if RoomAbove(c) {
      var m': Address, a :| IsMaxInUse(c, m') && m' < a < top && a !in Reserved(c);
      MaxIsUnique(c, m, m');
    }
    if FreeAbove(c, m) > 0 {
      var a := if c.dns == Some(m + 1) then m + 2 else m + 1;
      assert m < a < top && a !in Reserved(c);
    }
  }

  lemma RoomIffCapacity(c: Conf, m: Address)
    requires ValidSubnet(c.subnet) && IsMaxInUse(c, m)
    ensures Capacity(c, m) >= 0 && (HasRoom(c) <==> Capacity(c, m) > 0)
  {
    RoomAboveIffFree(c, m);
    if c.subnet.bits == 0 && m < WrapsTo(c) {
      WholeSpace(c.subnet);
      assert WrapsTo(c) !in Reserved(c);
      assert RoomAbove(c);
    }
  }

  /** The configuration after one peer got a generated address, and perhaps another alias. */
  ghost predicate Assigned(c: Conf, id: string, alias: string, ip: Address, c': Conf)
    requires ValidSubnet(c.subnet)
  {
    && Unaddressed(c, id) && IsGenerated(c, {}, ip)
    && c' == c.(peers := c.peers[id := c.peers[id].(alias := alias, ip := Dotted(ip))])
  }

  lemma AssignedMax(c: Conf, id: string, alias: string, ip: Address, c': Conf, m: Address) returns (m': Address)
    requires ValidSubnet(c.subnet) && Assigned(c, id, alias, ip, c') && IsMaxInUse(c, m)
    ensures m' == (if RoomAbove(c) then ip else m) && IsMaxInUse(c', m')
  {
    m' := if RoomAbove(c) then ip else m;
    GeneratedPlace(c, ip, m);
    forall a: Address ensures InUse(c', a) <==> InUse(c, a) || (a == ip && Inside(c.subnet, ip)) {
      AssignedInUse(c, id, alias, ip, c', a);
    }
  }

  lemma AssignedInUse(c: Conf, id: string, alias: string, ip: Address, c': Conf, a: Address)
    requires ValidSubnet(c.subnet) && Assigned(c, id, alias, ip, c')
    ensures InUse(c', a) <==> InUse(c, a) || (a == ip && Inside(c.subnet, ip))
  {
    assert Holds(c', id, a) <==> a == ip;
    assert !Holds(c, id, a);
    forall o | o != id ensures Holds(c', o, a) <==> Holds(c, o, a) {}
  }

  /** A generated address above takes one of those above. */
  lemma GeneratedAbove(c: Conf, ip: Address, m: Address)
    requires ValidSubnet(c.subnet) && IsGenerated(c, {}, ip) && IsMaxInUse(c, m) && RoomAbove(c)
    ensures m < ip && FreeAbove(c, ip) == FreeAbove(c, m) - 1
    ensures !(m < WrapsTo(c) < ip) || c.subnet.bits > 0
  {
    var m': Address, i :| IsMaxInUse(c, m') && IsFirstFree(m', {} + Reserved(c), i) && ip == After(m', i);
    MaxIsUnique(c, m, m');
    assert {} + Reserved(c) == Reserved(c);
    SubnetBounds(c.subnet);
    var m'': Address, b :| IsMaxInUse(c, m'') && m'' < b < Broadcast(c.subnet) && b !in Reserved(c);
    MaxIsUnique(c, m, m'');
    NextClosesGap(m, Broadcast(c.subnet), c.dns, Reserved(c), i);
    if c.subnet.bits == 0 {
      WholeSpace(c.subnet);
      FirstFreeStaysBelow(m, Broadcast(c.subnet), Reserved(c), i);
      assert WrapsTo(c) !in Reserved(c);
    }
  }

  /** A proper assignment uses up exactly one. */
  lemma AssignedCapacity(c: Conf, id: string, alias: string, ip: Address, c': Conf, m: Address, m': Address)
    requires ValidSubnet(c.subnet) && Assigned(c, id, alias, ip, c') && IsMaxInUse(c, m) && HasRoom(c)
    requires m' == if RoomAbove(c) then ip else m
    ensures Capacity(c', m') == Capacity(c, m) - 1
  {
    GeneratedPlace(c, ip, m);
    RoomAboveIffFree(c, m);
    AssignedInUse(c, id, alias, ip, c', WrapsTo(c));
    if RoomAbove(c) {
      GeneratedAbove(c, ip, m);
    }
  }

  /** Filling in an address never mends a configuration whose addresses were improper already. */
  lemma BadStaysBad(c: Conf, id: string, alias: string, ip: Address, c': Conf)
    requires ValidSubnet(c.subnet) && Assigned(c, id, alias, ip, c') && AddressesGood(c')
    ensures AddressesGood(c)
  {
    assert forall o, a: Address :: Holds(c, o, a) ==> Holds(c', o, a);
    assert forall o :: o in c.peers && c.peers[o].ip.Spelled? ==> c'.peers[o].ip == c.peers[o].ip;
  }

  lemma AssignedGood(c: Conf, id: string, alias: string, ip: Address, c': Conf)
    requires ValidSubnet(c.subnet) && AddressesGood(c) && Assigned(c, id, alias, ip, c')
    ensures AddressesGood(c') <==> HasRoom(c)
  {
    GeneratedProperIffRoom(c, ip);
    GivenKeepsAddresses(c, id, c'.peers[id]);
  }

  lemma AssignedMissing(c: Conf, id: string, alias: string, ip: Address, c': Conf)
    requires ValidSubnet(c.subnet) && Assigned(c, id, alias, ip, c')
    ensures id in Missing(c) && Missing(c') == Missing(c) - {id} && |Missing(c')| == |Missing(c)| - 1
  {
  }

  /**
   The account kept while loading: as long as all addresses are proper, every assignment uses up one
   free address; once one is not, there were fewer free addresses than peers without one.
   */
  ghost predicate Accounted(c: Conf, m: Address, surplus: int)
    requires ValidSubnet(c.subnet)
  {
    IsMaxInUse(c, m) && if AddressesGood(c) then Capacity(c, m) - |Missing(c)| == surplus else surplus < 0
  }

  lemma AssignKeepsAccount(c: Conf, id: string, alias: string, ip: Address, c': Conf, m: Address, surplus: int) returns (m': Address)
    requires ValidSubnet(c.subnet)
    requires Assigned(c, id, alias, ip, c') && Accounted(c, m, surplus)
    ensures Accounted(c', m', surplus)
  {
    m' := AssignedMax(c, id, alias, ip, c', m);
    AssignedMissing(c, id, alias, ip, c');
    if AddressesGood(c) {
      AssignedGood(c, id, alias, ip, c');
      RoomIffCapacity(c, m);
      if HasRoom(c) {
        AssignedCapacity(c, id, alias, ip, c', m, m');
      }
    } else if AddressesGood(c') {
      BadStaysBad(c, id, alias, ip, c');
    }
  }

  /** Giving a peer another alias changes nothing about addresses. */
  lemma RenameKeepsAccount(c: Conf, id: string, alias: string, m: Address, surplus: int)
    requires ValidSubnet(c.subnet) && id in c.peers && Accounted(c, m, surplus)
    ensures Accounted(c.(peers := c.peers[id := c.peers[id].(alias := alias)]), m, surplus)
  {
    var c' := c.(peers := c.peers[id := c.peers[id].(alias := alias)]);
    assert forall o :: o in c.peers ==> c'.peers[o].ip == c.peers[o].ip;
    forall a: Address ensures InUse(c', a) <==> InUse(c, a) { SameInUse(c, c', a); }
    SameAddressesGood(c, c');
    assert Missing(c') == Missing(c);
  }

  lemma SameAddressesGood(c: Conf, c': Conf)
    requires ValidSubnet(c.subnet) && c' == c.(peers := c'.peers) && c'.peers.Keys == c.peers.Keys
    requires forall o :: o in c.peers ==> c'.peers[o].ip == c.peers[o].ip
    ensures AddressesGood(c') <==> AddressesGood(c)
  {
    assert forall o, a: Address :: Holds(c, o, a) <==> Holds(c', o, a);
  }

  // ---- Loading, peer by peer -------------------------------------------------------------------------

  /** The peers in `done` are completed, and their aliases are in `used`. */
  ghost predicate PartlyLoaded(c0: Conf, c: Conf, done: set<string>, used: set<string>) {
    && c == c0.(dns := c.dns, peers := c.peers) && c.peers.Keys == c0.peers.Keys && done <= c.peers.Keys
    && (forall id :: id in c.peers && id !in done ==> c.peers[id] == c0.peers[id])
    && (forall id :: id in done ==>
          Completed(c0.peers[id], c.peers[id], c.dns) && c.peers[id].alias != "" && c.peers[id].alias in used)
    && (forall id, id' :: id in done && id' in done && id != id' ==> c.peers[id].alias != c.peers[id'].alias)
  }

  lemma CompleteOne(c0: Conf, c: Conf, done: set<string>, used: set<string>, id: string, peer: KnownPeer)
    requires PartlyLoaded(c0, c, done, used) && id in c.peers && id !in done
    requires Completed(c.peers[id], peer, c.dns) && IsFresh(peer.name, c.peers[id].alias, used, peer.alias)
    ensures PartlyLoaded(c0, c.(peers := c.peers[id := peer]), done + {id}, used + {peer.alias})
  {
  }

  /** Aliases that were proper from the start are kept, and only those count as used. */
  ghost predicate AliasesKept(c0: Conf, c: Conf, done: set<string>, used: set<string>)
    requires c.peers.Keys == c0.peers.Keys && done <= c.peers.Keys
  {
    && (forall id :: id in done ==> c.peers[id].alias == c0.peers[id].alias)
    && (forall a :: a in used ==> exists id :: id in done && c0.peers[id].alias == a)
  }

  lemma KeepAlias(c0: Conf, c: Conf, done: set<string>, used: set<string>, id: string, peer: KnownPeer)
    requires PartlyLoaded(c0, c, done, used) && id in c.peers && id !in done
    requires AliasesProper(c0) && AliasesKept(c0, c, done, used)
    requires IsFresh(peer.name, c.peers[id].alias, used, peer.alias)
    ensures AliasesKept(c0, c.(peers := c.peers[id := peer]), done + {id}, used + {peer.alias})
  {
    var alias := c0.peers[id].alias;
    assert alias !in used;
    forall a | a in used + {alias} ensures exists o :: o in done + {id} && c0.peers[o].alias == a {
      if a == alias {
        assert c0.peers[id].alias == a;
      } else {
        var o :| o in done && c0.peers[o].alias == a;
      }
    }
  }

  lemma LoadDone(c0: Conf, c: Conf, used: set<string>)
    requires ValidSubnet(c0.subnet) && IsDns(c0, c.dns) && PartlyLoaded(c0, c, c.peers.Keys, used)
    requires AliasesProper(c0) ==> AliasesKept(c0, c, c.peers.Keys, used)
    ensures Loaded(c0, c) && Missing(c) == {}
  {
  }

  /** The reserved address is some peer's, spelled so that the search for it did not see that. */
  predicate DnsTaken(c: Conf, dns: Option<Address>) {
    dns.Some? && exists id :: id in c.peers && Holds(c, id, dns.value)
  }

  /** Reserving the DNS address leaves the addresses in use as they are, and proper exactly if it was not taken. */
  lemma DnsKeepsAddresses(c: Conf, dns: Option<Address>, m: Address)
    requires ValidSubnet(c.subnet) && c.dns == None && IsDns(c, dns)
    ensures AddressesGood(c.(dns := dns)) <==> AddressesGood(c) && !DnsTaken(c, dns)
    ensures IsMaxInUse(c, m) <==> IsMaxInUse(c.(dns := dns), m)
    ensures Missing(c) == Missing(c.(dns := dns))
  {
    var d := c.(dns := dns);
    assert forall o, a: Address :: Holds(c, o, a) <==> Holds(d, o, a);
    forall a: Address ensures InUse(c, a) <==> InUse(d, a) { SameInUse(c, d, a); }
  }

  /** A peer stored as ::ffff:10.66.0.254 in 10.66.0.1/24: its address is reserved for the DNS server on top of it. */
  lemma DnsOnPeer() returns (c: Conf, dns: Option<Address>)
    ensures ValidSubnet(c.subnet) && c.dns == None && AddressesGood(c) && IsDns(c, dns) && DnsTaken(c, dns)
  {
    var last: Address := 0x0a42_00fe;
    dns := Some(last);
    c := Conf(Subnet(0x0a42_0001, 24), None, map["b" := KnownPeer("b", "b", Spelled(last, 1), true, false, "")], {}, map[], []);
    assert Pow2(8) == 0x100;
    assert Network(c.subnet) == 0x0a42_0000;
    assert Holds(c, "b", last);
    assert c.(dns := None) == c;
  }

  /** One turn of the loading loop. */
  ghost predicate Turn(c: Conf, id: string, used: set<string>, alias: string, c': Conf)
    requires ValidSubnet(c.subnet)
  {
    && id in c.peers && id in c'.peers && c' == c.(peers := c.peers[id := c'.peers[id]])
    && Completed(c.peers[id], c'.peers[id], c.dns) && c'.peers[id].alias == alias
    && IsFresh(c.peers[id].name, c.peers[id].alias, used, alias)
    && (c.peers[id].ip.Unset? ==> Assigned(c, id, alias, c'.peers[id].ip.value, c'))
  }

  /** What holds between two turns, `surplus` being the addresses that can be given out less those needed at the start. */
  ghost predicate Progress(c0: Conf, c: Conf, done: set<string>, used: set<string>, m: Address, surplus: int)
    requires ValidSubnet(c0.subnet)
  {
    && PartlyLoaded(c0, c, done, used) && IsDns(c0, c.dns)
    && (AliasesProper(c0) ==> AliasesKept(c0, c, done, used))
    && (if AddressesGood(c0.(dns := c.dns)) then Accounted(c, m, surplus) else !AddressesGood(c))
  }

  lemma Begin(c0: Conf, dns: Option<Address>, m: Address)
    requires ValidSubnet(c0.subnet) && c0.dns == None && IsDns(c0, dns) && IsMaxInUse(c0, m)
    ensures Progress(c0, c0.(dns := dns), {}, {}, m, Capacity(c0.(dns := dns), m) - |Missing(c0)|)
  {
    DnsKeepsAddresses(c0, dns, m);
  }

  lemma TurnKeepsProgress(c0: Conf, c: Conf, done: set<string>, used: set<string>, m: Address, surplus: int, id: string, alias: string, c': Conf)
    returns (m': Address)
    requires ValidSubnet(c0.subnet) && Progress(c0, c, done, used, m, surplus)
    requires id !in done && Turn(c, id, used, alias, c')
    ensures Progress(c0, c', done + {id}, used + {alias}, m', surplus)
  {
    m' := m;
    CompleteOne(c0, c, done, used, id, c'.peers[id]);
    if AliasesProper(c0) {
      KeepAlias(c0, c, done, used, id, c'.peers[id]);
    }
    if AddressesGood(c0.(dns := c.dns)) {
      m' := TurnKeepsAccount(c, m, surplus, id, used, alias, c');
    } else if AddressesGood(c') {
      TurnMendsNothing(c, id, used, alias, c');
    }
  }

  lemma TurnKeepsAccount(c: Conf, m: Address, surplus: int, id: string, used: set<string>, alias: string, c': Conf) returns (m': Address)
    requires ValidSubnet(c.subnet) && Turn(c, id, used, alias, c') && Accounted(c, m, surplus)
    ensures Accounted(c', m', surplus)
  {
    if c.peers[id].ip.Unset? {
      m' := AssignKeepsAccount(c, id, alias, c'.peers[id].ip.value, c', m, surplus);
    } else {
      m' := m;
      RenameKeepsAccount(c, id, alias, m, surplus);
      assert c'.peers[id] == c.peers[id].(alias := alias);
    }
  }

  lemma TurnMendsNothing(c: Conf, id: string, used: set<string>, alias: string, c': Conf)
    requires ValidSubnet(c.subnet) && Turn(c, id, used, alias, c') && AddressesGood(c')
    ensures AddressesGood(c)
  {
    if c.peers[id].ip.Unset? {
      BadStaysBad(c, id, alias, c'.peers[id].ip.value, c');
    } else {
      SameAddressesGood(c, c');
    }
  }

  /** All addresses are proper exactly when the reserved one was nobody's and there were enough. */
  ghost predicate Served(c0: Conf, c: Conf)
    requires ValidSubnet(c0.subnet) && c.subnet == c0.subnet
  {
    forall m: Address :: IsMaxInUse(c0, m) ==>
      (AddressesGood(c) <==> !DnsTaken(c0, c.dns) && |Missing(c0)| <= Capacity(c0.(dns := c.dns), m))
  }

  lemma Finish(c0: Conf, c: Conf, used: set<string>, m0: Address, m: Address)
    requires ValidSubnet(c0.subnet) && c0.dns == None && IsMaxInUse(c0, m0)
    requires Progress(c0, c, c.peers.Keys, used, m, Capacity(c0.(dns := c.dns), m0) - |Missing(c0)|)
    ensures Loaded(c0, c) && (AddressesGood(c0) ==> Served(c0, c))
  {
    LoadDone(c0, c, used);
    if AddressesGood(c0) {
      DnsKeepsAddresses(c0, c.dns, m0);
      if !DnsTaken(c0, c.dns) {
        RoomIffCapacity(c, m);
      }
      forall m': Address | IsMaxInUse(c0, m') ensures m' == m0 { MaxIsUnique(c0, m', m0); }
    }
  }

  // ---- The whole loop --------------------------------------------------------------------------------

  /** The aliases of some peers. */
  function AliasesOf(c: Conf, ids: set<string>): set<string> {
    set id | id in ids && id in c.peers :: c.peers[id].alias
  }

  function Visited(order: seq<string>, i: nat): set<string>
    requires i <= |order|
  {
    set id | id in order[..i]
  }

  /** The turn at place `i`. */
  ghost predicate TurnAt(order: seq<string>, t: seq<Conf>, i: nat)
    requires i < |order| && i + 1 < |t|
  {
    && ValidSubnet(t[i].subnet) && order[i] !in Visited(order, i) && order[i] in t[i + 1].peers
    && Turn(t[i], order[i], AliasesOf(t[i], Visited(order, i)), t[i + 1].peers[order[i]].alias, t[i + 1])
  }

  /** The DNS address is reserved, then every peer has its turn, in some order; `t` lists the states between. */
  ghost predicate IsLoading(c0: Conf, order: seq<string>, t: seq<Conf>)
    requires ValidSubnet(c0.subnet)
  {
    && |t| == |order| + 1 && Visited(order, |order|) == c0.peers.Keys
    && t[0] == c0.(dns := t[0].dns) && IsDns(c0, t[0].dns)
    && forall i: nat :: i < |order| ==> TurnAt(order, t, i)
  }

  ghost predicate Loads(c0: Conf, c: Conf)
    requires ValidSubnet(c0.subnet)
  {
    exists order, t :: IsLoading(c0, order, t) && c == t[|order|]
  }

  lemma VisitedNext(order: seq<string>, i: nat)
    requires i < |order|
    ensures Visited(order, i + 1) == Visited(order, i) + {order[i]}
  {
    assert order[..i + 1] == order[..i] + [order[i]];
  }

  /** A turn leaves the aliases of the others alone. */
  lemma AliasesNext(order: seq<string>, t: seq<Conf>, i: nat)
    requires i < |order| && i + 1 < |t| && TurnAt(order, t, i)
    ensures AliasesOf(t[i + 1], Visited(order, i + 1))
         == AliasesOf(t[i], Visited(order, i)) + {t[i + 1].peers[order[i]].alias}
  {
    VisitedNext(order, i);
    var c, c', id, done := t[i], t[i + 1], order[i], Visited(order, i);
    assert forall o :: o in done ==> (o in c.peers <==> o in c'.peers);
    assert forall o :: o in done && o in c.peers ==> c'.peers[o].alias == c.peers[o].alias;
  }

  /** One more turn. */
  lemma TurnAppended(order: seq<string>, t: seq<Conf>, id: string, used: set<string>, alias: string, c: Conf)
    requires |t| == |order| + 1 && ValidSubnet(t[|order|].subnet) && id !in Visited(order, |order|)
    requires used == AliasesOf(t[|order|], Visited(order, |order|)) && Turn(t[|order|], id, used, alias, c)
    requires forall i: nat :: i < |order| ==> TurnAt(order, t, i)
    ensures forall i: nat :: i < |order| + 1 ==> TurnAt(order + [id], t + [c], i)
    ensures Visited(order + [id], |order| + 1) == Visited(order, |order|) + {id}
    ensures AliasesOf(c, Visited(order + [id], |order| + 1)) == used + {alias}
  {
    var order', t' := order + [id], t + [c];
    forall i: nat | i < |order'| ensures TurnAt(order', t', i) {
      assert order'[..i] == order[..i];
      assert i < |order| ==> TurnAt(order, t, i);
    }
    VisitedNext(order', |order|);
    assert order'[..|order|] == order[..|order|];
    AliasesNext(order', t', |order|);
  }

  lemma {:induction false} LoadingProgress(c0: Conf, order: seq<string>, t: seq<Conf>, i: nat, m0: Address) returns (m: Address)
    requires ValidSubnet(c0.subnet) && c0.dns == None && IsLoading(c0, order, t) && i <= |order| && IsMaxInUse(c0, m0)
    ensures t[i].dns == t[0].dns
    ensures Progress(c0, t[i], Visited(order, i), AliasesOf(t[i], Visited(order, i)), m,
                     Capacity(t[0], m0) - |Missing(c0)|)
  {
    if i == 0 {
      m := m0;
      Begin(c0, t[0].dns, m0);
      assert Visited(order, 0) == {} && AliasesOf(t[0], {}) == {};
    } else {
      m := LoadingProgress(c0, order, t, i - 1, m0);
      assert TurnAt(order, t, i - 1);
      VisitedNext(order, i - 1);
      AliasesNext(order, t, i - 1);
      m := TurnKeepsProgress(c0, t[i - 1], Visited(order, i - 1), AliasesOf(t[i - 1], Visited(order, i - 1)), m,
                             Capacity(t[0], m0) - |Missing(c0)|, order[i - 1], t[i].peers[order[i - 1]].alias, t[i]);
    }
  }

  /** What loading amounts to, in whatever order the peers have their turns. */
  lemma LoadsServe(c0: Conf, c: Conf)
    requires ValidSubnet(c0.subnet) && c0.dns == None && Loads(c0, c)
    ensures Loaded(c0, c) && (AddressesGood(c0) ==> Served(c0, c))
  {
    var order, t :| IsLoading(c0, order, t) && c == t[|order|];
    var m0 := MaxExists(c0, c0.peers.Keys);
    var m := LoadingProgress(c0, order, t, |order|, m0);
    assert Visited(order, |order|) == c.peers.Keys;
    Finish(c0, c, AliasesOf(c, c.peers.Keys), m0, m);
  }
}

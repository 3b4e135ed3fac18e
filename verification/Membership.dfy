/**
 The membership part of a node's configuration as values: known peers with their aliases and
 addresses, and invites as a bounded resource.  Each operation is a relation between the
 configuration before and after its critical section; `ConfigStore` proves the methods against them.
 */
module Membership {
  import opened Wrappers
  import opened Addresses
  import opened Aliases

  /**
   The text of a stored address: empty, unreadable, or one of the spellings of an IPv4 address.  Form 0
   is the dotted one that the generator writes; the others are the IPv4-mapped spellings, such as
   ::ffff:10.66.0.2, which read as the same address.
   */
  datatype Ip = Unset | Unreadable(text: string) | Spelled(value: Address, form: nat)

  function Dotted(a: Address): Ip { Spelled(a, 0) }

  datatype KnownPeer = KnownPeer(
    name: string, alias: string, ip: Ip, confirmed: bool, allowExit: bool, inviteId: string)

  datatype Invite = Invite(
    id: string, token: string, alias: string, allowExit: bool,
    maxUses: int, usedCount: int, expiresAt: Option<int>, revoked: bool)

  /** What happened to invites, in order; an insertion without an invite carries the empty id. */
  datatype Event = Inserted(id: string) | Revoked(id: string)

  datatype Conf = Conf(
    subnet: Subnet,
    dns: Option<Address>,
    peers: map<string, KnownPeer>,
    blocked: set<string>,
    invites: map<string, Invite>,
    log: seq<Event>)

  // ---- Aliases and addresses ------------------------------------------------------------------------

  function UsedAliases(c: Conf): set<string> {
    set id | id in c.peers :: c.peers[id].alias
  }

  predicate IsUniqueAlias(c: Conf, exceptId: string, alias: string) {
    forall id :: id in c.peers ==> id == exceptId || c.peers[id].alias != alias
  }

  /** The peer's text reads as this address. */
  predicate Holds(c: Conf, id: string, a: Address) {
    id in c.peers && c.peers[id].ip.Spelled? && c.peers[id].ip.value == a
  }

  /** CheckIPUnique: the special addresses are compared as addresses, those of the peers as texts. */
  predicate AddressUsable(c: Conf, ip: Ip, exceptId: string)
    requires ValidSubnet(c.subnet)
  {
    && ip.Spelled? && Inside(c.subnet, ip.value) && ip.value != Broadcast(c.subnet)
    && ip.value != c.subnet.local && c.dns != Some(ip.value)
    && forall id :: id in c.peers && c.peers[id].ip == ip ==> exceptId != "" && id == exceptId
  }

  /** Another peer has that address under another spelling, which the check does not see. */
  predicate Respelled(c: Conf, ip: Ip, id: string) {
    ip.Spelled? && exists o :: o in c.peers && o != id && c.peers[o].ip != ip && Holds(c, o, ip.value)
  }

  predicate InUse(c: Conf, a: Address)
    requires ValidSubnet(c.subnet)
  {
    a == c.subnet.local || (Inside(c.subnet, a) && exists id :: id in c.peers && Holds(c, id, a))
  }

  /** The highest address of the subnet in use, the node's own included. */
  ghost predicate IsMaxInUse(c: Conf, m: Address)
    requires ValidSubnet(c.subnet)
  {
    InUse(c, m) && forall a: Address :: InUse(c, a) ==> a <= m
  }

  /** Addresses the generator steps over. */
  function Reserved(c: Conf): set<int>
    requires ValidSubnet(c.subnet)
  {
    {Broadcast(c.subnet)} + if c.dns.Some? then {c.dns.value as int} else {}
  }

  ghost predicate IsGenerated(c: Conf, except: set<int>, ip: Address)
    requires ValidSubnet(c.subnet)
  {
    exists m: Address, i :: IsMaxInUse(c, m) && IsFirstFree(m, except + Reserved(c), i) && ip == After(m, i)
  }

  /** The text of the next generated address. */
  ghost predicate IsNext(c: Conf, ip: Ip)
    requires ValidSubnet(c.subnet)
  {
    ip.Spelled? && ip == Dotted(ip.value) && IsGenerated(c, {}, ip.value)
  }

  /** Every peer with an address has its own, however it is spelled, inside the subnet and none of the special ones. */
  predicate AddressesGood(c: Conf)
    requires ValidSubnet(c.subnet)
  {
    && (forall id :: id in c.peers && c.peers[id].ip.Spelled? ==>
          var a := c.peers[id].ip.value;
          Inside(c.subnet, a) && a != Broadcast(c.subnet) && a != c.subnet.local && c.dns != Some(a))
    && (forall id, id' :: id in c.peers && id' in c.peers && id != id' && c.peers[id].ip.Spelled? ==>
          !Holds(c, id', c.peers[id].ip.value))
  }

  /** There is an address left above the highest one in use. */
  ghost predicate RoomAbove(c: Conf)
    requires ValidSubnet(c.subnet)
  {
    exists m: Address, a :: IsMaxInUse(c, m) && m < a < Broadcast(c.subnet) && a !in Reserved(c)
  }

  /** Where a search that runs past the last address of the whole space goes on. */
  function WrapsTo(c: Conf): Address {
    if c.dns == Some(0) then 1 else 0
  }

  /** There is room above, or, when the subnet is the whole space, where the search comes back. */
  ghost predicate HasRoom(c: Conf)
    requires ValidSubnet(c.subnet)
  {
    RoomAbove(c) || (c.subnet.bits == 0 && !InUse(c, WrapsTo(c)))
  }

  predicate AliasesDistinct(c: Conf) {
    && "" !in c.peers
    && forall id, id' :: id in c.peers && id' in c.peers && id != id' ==> c.peers[id].alias != c.peers[id'].alias
  }

  /**
   A generated address was not excluded, and one the manual check would accept if it is an unused
   one of the subnet.  It is unused if it is in the subnet, unless the search had to go past half of
   all addresses or the subnet is the whole space.
   */
  lemma GeneratedIsUsable(c: Conf, except: set<int>, ip: Address, id: string)
    requires ValidSubnet(c.subnet) && IsGenerated(c, except, ip)
    ensures ip !in except
    ensures Inside(c.subnet, ip) && !InUse(c, ip) ==> AddressUsable(c, Dotted(ip), id)
    ensures c.subnet.bits > 0 && |except| < SPACE / 2 - 3 && Inside(c.subnet, ip) ==> !InUse(c, ip)
  {
    var m: Address, i :| IsMaxInUse(c, m) && IsFirstFree(m, except + Reserved(c), i) && ip == After(m, i);
    if c.subnet.bits > 0 && |except| < SPACE / 2 - 3 && Inside(c.subnet, ip) {
      UnionSize(except, Reserved(c));
      FirstFreeIsNear(m, except + Reserved(c), i);
      MaxInside(c, m);
      HalfSpace(c.subnet);
      SubnetBounds(c.subnet);
      assert m < ip;
    }
    if Inside(c.subnet, ip) {
      assert forall o :: o in c.peers && c.peers[o].ip == Dotted(ip) ==> Holds(c, o, ip);
    }
  }

  lemma UnionSize(a: set<int>, b: set<int>)
    ensures |a + b| <= |a| + |b|
  {
  }

  lemma SubsetSize(a: set<int>, b: set<int>)
    requires a <= b
    ensures |a| <= |b|
  {
    assert b == a + (b - a);
  }

  lemma {:induction false} MaxExists(c: Conf, ids: set<string>) returns (m: Address)
    requires ValidSubnet(c.subnet) && ids <= c.peers.Keys
    ensures InUse(c, m) && c.subnet.local <= m
    ensures forall id :: id in ids && c.peers[id].ip.Spelled? && Inside(c.subnet, c.peers[id].ip.value) ==> c.peers[id].ip.value <= m
    ensures ids == c.peers.Keys ==> IsMaxInUse(c, m)
  {
    m := c.subnet.local;
    if id :| id in ids {
      m := MaxExists(c, ids - {id});
      var ip := c.peers[id].ip;
      if ip.Spelled? && Inside(c.subnet, ip.value) && ip.value > m {
        m := ip.value;
        assert Holds(c, id, m);
      }
    }
  }

  lemma MaxIsUnique(c: Conf, m: Address, m': Address)
    requires ValidSubnet(c.subnet) && IsMaxInUse(c, m) && IsMaxInUse(c, m')
    ensures m == m'
  {
  }

  /**
   The generator never tests containment nor use: what it returns is an unused address of the subnet
   exactly when there is room.
   */
  lemma GeneratedProperIffRoom(c: Conf, ip: Address)
    requires ValidSubnet(c.subnet) && IsGenerated(c, {}, ip)
    ensures Inside(c.subnet, ip) && !InUse(c, ip) <==> HasRoom(c)
    ensures c.subnet.bits > 0 ==> (Inside(c.subnet, ip) <==> HasRoom(c))
  {
    var m := MaxExists(c, c.peers.Keys);
    GeneratedPlace(c, ip, m);
  }

  /** Where the generated address lies. */
  lemma GeneratedPlace(c: Conf, ip: Address, m: Address)
    requires ValidSubnet(c.subnet) && IsGenerated(c, {}, ip) && IsMaxInUse(c, m)
    ensures if RoomAbove(c) then m < ip < Broadcast(c.subnet) && Inside(c.subnet, ip)
            else if c.subnet.bits == 0 then ip == WrapsTo(c) && ip <= m && Inside(c.subnet, ip)
            else !Inside(c.subnet, ip)
  {
    var m': Address, i :| IsMaxInUse(c, m') && IsFirstFree(m', {} + Reserved(c), i) && ip == After(m', i);
    MaxIsUnique(c, m, m');
    assert {} + Reserved(c) == Reserved(c);
    SubnetBounds(c.subnet);
    MaxInside(c, m);
    if RoomAbove(c) {
      var m'': Address, a :| IsMaxInUse(c, m'') && m'' < a < Broadcast(c.subnet) && a !in Reserved(c);
      MaxIsUnique(c, m, m'');
      FirstFreeStaysBelow(m, Broadcast(c.subnet), Reserved(c), i);
    } else if c.subnet.bits == 0 {
      BackToStart(c, m, i);
    } else {
      PastTheEnd(c, m, i);
    }
  }

  /** In the whole address space the search comes back to the lowest address. */
  lemma BackToStart(c: Conf, m: Address, i: nat)
    requires ValidSubnet(c.subnet) && c.subnet.bits == 0
    requires IsMaxInUse(c, m) && IsFirstFree(m, Reserved(c), i) && !RoomAbove(c)
    ensures After(m, i) == WrapsTo(c) && After(m, i) <= m
    ensures Inside(c.subnet, After(m, i))
  {
    WholeSpace(c.subnet);
    var reserved := Reserved(c);
    forall b | m < b < SPACE ensures b in reserved {}
    assert m + 1 < SPACE ==> m + 1 in reserved;
    assert m + 2 < SPACE ==> m + 2 in reserved;
    assert m + 3 < SPACE ==> m + 3 in reserved;
    FirstFreeWraps(m, reserved, i);
  }

  /** With everything above taken, the first free address is 0, or 1 if that is taken. */
  lemma FirstFreeWraps(m: Address, taken: set<int>, i: nat)
    requires IsFirstFree(m, taken, i) && (0 in taken ==> 1 !in taken) && forall b :: m < b < SPACE ==> b in taken
    ensures After(m, i) == if 0 in taken then 1 else 0
  {
    var last := SPACE - 1 - m;
    forall j | 0 < j <= last ensures After(m, j) in taken { assert After(m, j) == m + j; }
    assert After(m, last + 1) == 0 && After(m, last + 2) == 1;
  }

  /** 10.66.0.1/24 with a peer at 10.66.0.254: the next address is 10.66.1.0, of another network. */
  lemma GeneratedOutside() returns (c: Conf, ip: Address)
    ensures ValidSubnet(c.subnet) && c.subnet.bits > 0 && AddressesGood(c)
    ensures IsGenerated(c, {}, ip) && !Inside(c.subnet, ip)
  {
    var last: Address := 0x0a42_00fe;
    c := Conf(Subnet(0x0a42_0001, 24), None, map["b" := KnownPeer("b", "b", Dotted(last), true, false, "")], {}, map[], []);
    ip := 0x0a42_0100;
    assert Pow2(8) == 0x100;
    assert Network(c.subnet) == 0x0a42_0000;
    assert Holds(c, "b", last);
    assert IsMaxInUse(c, last);
    assert After(last, 1) == Broadcast(c.subnet) && After(last, 2) == ip;
    assert IsFirstFree(last, {} + Reserved(c), 2);
  }

  lemma MaxInside(c: Conf, m: Address)
    requires ValidSubnet(c.subnet) && IsMaxInUse(c, m)
    ensures Inside(c.subnet, m)
  {
    SubnetBounds(c.subnet);
  }

  lemma PastTheEnd(c: Conf, m: Address, i: nat)
    requires ValidSubnet(c.subnet) && c.subnet.bits > 0 && Inside(c.subnet, m)
    requires IsMaxInUse(c, m) && IsFirstFree(m, Reserved(c), i) && !RoomAbove(c)
    ensures !Inside(c.subnet, After(m, i))
  {
    var top := Broadcast(c.subnet);
    SubnetBounds(c.subnet);
    HalfSpace(c.subnet);
    forall b | m < b < top ensures b in Reserved(c) {}
    AllTaken(m, top, Network(c.subnet), Reserved(c), i, if c.dns.Some? then c.dns.value else top);
  }

  /** With every address up to the end taken, the search leaves the subnet and does not come back. */
  lemma AllTaken(m: Address, top: Address, bottom: Address, taken: set<int>, i: nat, dns: Address)
    requires bottom <= m <= top && top - bottom < SPACE / 2 && taken == {top as int, dns as int}
    requires IsFirstFree(m, taken, i) && forall b :: m < b < top ==> b in taken
    ensures !(bottom <= After(m, i) <= top)
  {
    if m < top {
      FirstFreeStaysBelow(m, top, taken, i);
      assert After(m, top - m) == top;
    }
    var last := top - m;
    assert i > last;
    assert i > last + 2 ==> After(m, last + 1) in taken && After(m, last + 2) in taken;
    WrapsOutside(m, top, bottom, i, dns);
  }

  /** At most two addresses past the end can be skipped, and neither of them is back in the subnet. */
  lemma WrapsOutside(m: Address, top: Address, bottom: Address, i: nat, dns: Address)
    requires bottom <= m <= top && top - bottom < SPACE / 2 && i > top - m
    requires i > top - m + 2 ==> After(m, top - m + 1) in {top, dns} && After(m, top - m + 2) in {top, dns}
    ensures !(bottom <= After(m, i) <= top)
  {
  }

  /** A proper prefix covers at most half of the address space. */
  lemma HalfSpace(n: Subnet)
    requires ValidSubnet(n) && n.bits > 0
    ensures Size(n) <= SPACE / 2
  {
    Pow2Space();
    assert Pow2(32) == 2 * Pow2(31);
    Pow2Sum(n.bits - 1, 32 - n.bits);
    MulMono(1, Pow2(n.bits - 1), Pow2(32 - n.bits));
  }

  // ---- Invites ---------------------------------------------------------------------------------------

  predicate IsExpired(i: Invite, now: int) { i.expiresAt.Some? && now > i.expiresAt.value }

  predicate IsUsedUp(i: Invite) { i.usedCount >= i.maxUses }

  predicate Usable(i: Invite, now: int) { !i.revoked && !IsExpired(i, now) && !IsUsedUp(i) }

  /** The invite `id` is the one a token opens right now. */
  predicate Redeems(c: Conf, token: string, now: int, id: string) {
    token != "" && id in c.invites && c.invites[id].token == token && Usable(c.invites[id], now)
  }

  predicate TokensDistinct(c: Conf) {
    && (forall id :: id in c.invites ==> c.invites[id].id == id && id != "" && c.invites[id].token != "")
    && (forall id, id' :: id in c.invites && id' in c.invites && id != id' ==> c.invites[id].token != c.invites[id'].token)
  }

  /** How many insertions were ever made under an invite. */
  function Insertions(log: seq<Event>, id: string): nat {
    if log == [] then 0 else Insertions(log[..|log| - 1], id) + if log[|log| - 1] == Inserted(id) then 1 else 0
  }

  lemma InsertionsSnoc(log: seq<Event>, e: Event, id: string)
    ensures Insertions(log + [e], id) == Insertions(log, id) + if e == Inserted(id) then 1 else 0
  {
  }

  /** No peer is ever inserted under an invite after that invite was revoked. */
  predicate NoInsertionAfterRevocation(log: seq<Event>) {
    forall i, j :: 0 <= i < j < |log| && log[i].Revoked? ==> log[j] != Inserted(log[i].id)
  }

  /** Uses spent are exactly insertions made, never more than allowed, never after revocation. */
  predicate Conserved(c: Conf) {
    && TokensDistinct(c)
    && (forall id :: id in c.invites ==>
          && Insertions(c.log, id) == c.invites[id].usedCount <= c.invites[id].maxUses
          && (c.invites[id].revoked <==> Revoked(id) in c.log))
    && (forall e :: e in c.log ==> (e.id in c.invites || (e.Inserted? && e.id == "")))
    && NoInsertionAfterRevocation(c.log)
  }

  // ---- Operations ------------------------------------------------------------------------------------

  /** `id` and `token` are the random values drawn; a draw that repeats an id is retried by the source. */
  function CreateInvite(c: Conf, id: string, token: string, alias: string, allowExit: bool, maxUses: int, expiresAt: Option<int>): Conf {
    c.(invites := c.invites[id := Invite(id, token, alias, allowExit, if maxUses < 1 then 1 else maxUses, 0, expiresAt, false)])
  }

  function RevokeInvite(c: Conf, id: string): Conf {
    if id !in c.invites || c.invites[id].revoked then c
    else c.(invites := c.invites[id := c.invites[id].(revoked := true)], log := c.log + [Revoked(id)])
  }

  function Spend(c: Conf, id: string): Conf
    requires id in c.invites
  {
    c.(invites := c.invites[id := c.invites[id].(usedCount := c.invites[id].usedCount + 1)])
  }

  function RemovePeer(c: Conf, id: string): Conf {
    c.(peers := c.peers - {id})
  }

  datatype Params = Params(
    id: string, name: string, alias: string, uniquifyAlias: bool, confirmed: bool,
    ip: Ip, allowExit: bool, token: string)

  datatype Outcome = Added | AlreadyKnown | InviteRejected | AliasTaken | AddressTaken

  function Insert(c: Conf, p: Params, alias: string, ip: Ip, allowExit: bool, inviteId: string): Conf {
    c.(peers := c.peers[p.id := KnownPeer(p.name, alias, ip, p.confirmed, allowExit, inviteId)],
       log := c.log + [Inserted(inviteId)])
  }

  /** The checks after a possible reservation: with the wished alias, and the settings that came with it. */
  ghost predicate AddChecked(c: Conf, p: Params, alias: string, allowExit: bool, inviteId: string, c': Conf, out: Outcome)
    requires ValidSubnet(c.subnet)
  {
    if !p.uniquifyAlias && !IsUniqueAlias(c, "", alias) then out == AliasTaken && c' == c
    else if !p.ip.Unset? && !AddressUsable(c, p.ip, p.id) then out == AddressTaken && c' == c
    else
      && out == Added
      && exists chosen, ip ::
           && (if p.uniquifyAlias then IsFresh(p.name, alias, UsedAliases(c), chosen) else chosen == alias)
           && (if p.ip.Unset? then IsNext(c, ip) else ip == p.ip)
           && c' == Insert(c, p, chosen, ip, allowExit, inviteId)
  }

  /** AddPeer: the block is lifted first; a reserved use is spent even if a later check fails. */
  ghost predicate AddPeer(c: Conf, p: Params, now: int, c': Conf, out: Outcome)
    requires ValidSubnet(c.subnet)
  {
    var open := c.(blocked := c.blocked - {p.id});
    if p.id in c.peers then out == AlreadyKnown && c' == open
    else if p.token == "" then AddChecked(open, p, p.alias, p.allowExit, "", c', out)
    else if !exists id :: Redeems(c, p.token, now, id) then out == InviteRejected && c' == open
    else exists id :: Redeems(c, p.token, now, id)
                      && AddChecked(Spend(open, id), p, c.invites[id].alias, c.invites[id].allowExit, id, c', out)
  }

  predicate AcceptsUpdate(c: Conf, id: string, alias: string, ip: Ip)
    requires ValidSubnet(c.subnet)
  {
    id in c.peers && IsUniqueAlias(c, id, alias) && AddressUsable(c, ip, id)
  }

  /** UpdatePeerSettings: the peer's own alias and address do not count against it. */
  function UpdatePeer(c: Conf, id: string, alias: string, ip: Ip, allowExit: bool): Conf
    requires ValidSubnet(c.subnet)
  {
    if !AcceptsUpdate(c, id, alias, ip) then c
    else c.(peers := c.peers[id := c.peers[id].(alias := alias, ip := ip, allowExit := allowExit)])
  }

  /** processPeerStatusInfo: the name is taken over, and a peer without an alias gets a fresh one. */
  ghost predicate MergeStatus(c: Conf, id: string, name: string, c': Conf) {
    if id !in c.peers then c' == c
    else exists alias ::
      && (if c.peers[id].alias == "" then IsFresh(name, "", UsedAliases(c), alias) else alias == c.peers[id].alias)
      && c' == c.(peers := c.peers[id := c.peers[id].(name := name, confirmed := true, alias := alias)])
  }

  // ---- What every operation keeps ------------------------------------------------------------------

  /** A successful AddPeer, taken apart. */
  lemma Anatomy(c: Conf, p: Params, now: int, c': Conf)
    returns (base: Conf, alias: string, ip: Ip, allowExit: bool, inviteId: string)
    requires ValidSubnet(c.subnet) && "" !in c.peers && AddPeer(c, p, now, c', Added)
    ensures p.id !in c.peers && alias !in UsedAliases(c)
    ensures c' == Insert(base, p, alias, ip, allowExit, inviteId)
    ensures base == c.(blocked := c.blocked - {p.id}, invites := base.invites)
    ensures if p.ip.Unset? then IsNext(c, ip) else ip == p.ip && AddressUsable(c, ip, p.id)
    ensures if p.token == "" then inviteId == "" && base.invites == c.invites
            else Redeems(c, p.token, now, inviteId) && base.invites == Spend(c, inviteId).invites
  {
    var open := c.(blocked := c.blocked - {p.id});
    if p.token == "" {
      base, allowExit, inviteId := open, p.allowExit, "";
      alias, ip := ChosenFor(c, base, p, p.alias, allowExit, inviteId, c');
    } else {
      inviteId := Redeemed(c, p, now, c', Added);
      base, allowExit, alias, ip := RedeemedAnatomy(c, p, inviteId, c');
    }
  }

  lemma RedeemedAnatomy(c: Conf, p: Params, inviteId: string, c': Conf)
    returns (base: Conf, allowExit: bool, alias: string, ip: Ip)
    requires ValidSubnet(c.subnet) && "" !in c.peers && inviteId in c.invites
    requires AddChecked(Spend(c.(blocked := c.blocked - {p.id}), inviteId), p,
                        c.invites[inviteId].alias, c.invites[inviteId].allowExit, inviteId, c', Added)
    ensures alias !in UsedAliases(c) && c' == Insert(base, p, alias, ip, allowExit, inviteId)
    ensures base == c.(blocked := c.blocked - {p.id}, invites := base.invites)
    ensures base.invites == Spend(c, inviteId).invites
    ensures if p.ip.Unset? then IsNext(c, ip) else ip == p.ip && AddressUsable(c, ip, p.id)
  {
    base, allowExit := Spend(c.(blocked := c.blocked - {p.id}), inviteId), c.invites[inviteId].allowExit;
    alias, ip := ChosenFor(c, base, p, c.invites[inviteId].alias, allowExit, inviteId, c');
  }

  lemma ChosenFor(c: Conf, base: Conf, p: Params, wish: string, allowExit: bool, inviteId: string, c': Conf)
    returns (alias: string, ip: Ip)
    requires ValidSubnet(c.subnet) && base.subnet == c.subnet && base.dns == c.dns && base.peers == c.peers
    requires "" !in c.peers && AddChecked(base, p, wish, allowExit, inviteId, c', Added)
    ensures alias !in UsedAliases(c) && c' == Insert(base, p, alias, ip, allowExit, inviteId)
    ensures if p.ip.Unset? then IsNext(c, ip) else ip == p.ip && AddressUsable(c, ip, p.id)
  {
    alias, ip := Chosen(base, p, wish, allowExit, inviteId, c');
    SameMembers(c, base, ip, p.id);
  }

  /** The invite an AddPeer with a token went through with. */
  lemma Redeemed(c: Conf, p: Params, now: int, c': Conf, out: Outcome) returns (id: string)
    requires ValidSubnet(c.subnet) && AddPeer(c, p, now, c', out) && p.token != "" && out != AlreadyKnown && out != InviteRejected
    ensures p.id !in c.peers && Redeems(c, p.token, now, id)
    ensures AddChecked(Spend(c.(blocked := c.blocked - {p.id}), id), p, c.invites[id].alias, c.invites[id].allowExit, id, c', out)
  {
    id :| Redeems(c, p.token, now, id)
      && AddChecked(Spend(c.(blocked := c.blocked - {p.id}), id), p, c.invites[id].alias, c.invites[id].allowExit, id, c', out);
  }

  lemma Chosen(c: Conf, p: Params, wish: string, allowExit: bool, inviteId: string, c': Conf) returns (alias: string, ip: Ip)
    requires ValidSubnet(c.subnet) && "" !in c.peers && AddChecked(c, p, wish, allowExit, inviteId, c', Added)
    ensures alias !in UsedAliases(c) && c' == Insert(c, p, alias, ip, allowExit, inviteId)
    ensures if p.ip.Unset? then IsNext(c, ip) else ip == p.ip && AddressUsable(c, ip, p.id)
  {
    alias, ip :|
      && (if p.uniquifyAlias then IsFresh(p.name, wish, UsedAliases(c), alias) else alias == wish)
      && (if p.ip.Unset? then IsNext(c, ip) else ip == p.ip)
      && c' == Insert(c, p, alias, ip, allowExit, inviteId);
  }

  /** Alias and address questions look at the subnet, the reserved address and the peers alone. */
  lemma SameMembers(c: Conf, d: Conf, ip: Ip, id: string)
    requires ValidSubnet(c.subnet) && d.subnet == c.subnet && d.dns == c.dns && d.peers == c.peers
    ensures UsedAliases(d) == UsedAliases(c)
    ensures AddressUsable(d, ip, id) <==> AddressUsable(c, ip, id)
    ensures IsNext(d, ip) ==> IsNext(c, ip)
  {
    if IsNext(d, ip) {
      var m: Address, i :| IsMaxInUse(d, m) && IsFirstFree(m, {} + Reserved(d), i) && ip.value == After(m, i);
      forall a: Address ensures InUse(c, a) <==> InUse(d, a) { SameInUse(c, d, a); }
      assert IsMaxInUse(c, m);
    }
  }

  lemma SameInUse(c: Conf, d: Conf, a: Address)
    requires ValidSubnet(c.subnet) && d.subnet == c.subnet && d.peers.Keys == c.peers.Keys
    requires forall o :: o in c.peers ==> d.peers[o].ip == c.peers[o].ip
    ensures InUse(c, a) <==> InUse(d, a)
  {
    forall o ensures Holds(c, o, a) <==> Holds(d, o, a) {}
  }

  /** Adding a peer keeps aliases distinct, whichever way the alias was chosen. */
  lemma AddKeepsAliases(c: Conf, p: Params, now: int, c': Conf, out: Outcome)
    requires ValidSubnet(c.subnet) && AliasesDistinct(c) && AddPeer(c, p, now, c', out) && p.id != ""
    ensures AliasesDistinct(c')
  {
    if out == Added {
      var base, alias, _, _, _ := Anatomy(c, p, now, c');
      assert forall id :: id in c.peers ==> c.peers[id].alias in UsedAliases(c);
    }
  }

  lemma UpdateKeepsAliases(c: Conf, id: string, alias: string, ip: Ip, allowExit: bool)
    requires ValidSubnet(c.subnet) && AliasesDistinct(c)
    ensures AliasesDistinct(UpdatePeer(c, id, alias, ip, allowExit))
  {
  }

  lemma MergeKeepsMembers(c: Conf, id: string, name: string, c': Conf)
    requires MergeStatus(c, id, name, c') && AliasesDistinct(c)
    ensures AliasesDistinct(c') && c' == c.(peers := c'.peers) && c'.peers.Keys == c.peers.Keys
    ensures forall o :: o in c.peers ==> c'.peers[o].ip == c.peers[o].ip
  {
    if id in c.peers {
      assert forall o :: o in c.peers ==> c.peers[o].alias in UsedAliases(c);
    }
  }

  /** An address accepted by the check may be given to a peer exactly if nobody has it under another spelling. */
  lemma UsableKeepsAddresses(c: Conf, id: string, peer: KnownPeer)
    requires ValidSubnet(c.subnet) && AddressesGood(c) && AddressUsable(c, peer.ip, id)
    ensures AddressesGood(c.(peers := c.peers[id := peer])) <==> !Respelled(c, peer.ip, id)
  {
    var c' := c.(peers := c.peers[id := peer]);
    if Respelled(c, peer.ip, id) {
      var o :| o in c.peers && o != id && c.peers[o].ip != peer.ip && Holds(c, o, peer.ip.value);
      assert Holds(c', o, c'.peers[id].ip.value);
    } else {
      assert forall o :: o in c.peers && o != id && Holds(c, o, peer.ip.value) ==> c.peers[o].ip == peer.ip;
      assert forall o, a: Address :: o != id ==> (Holds(c', o, a) <==> Holds(c, o, a));
    }
  }

  /** Updating a peer keeps every address proper exactly when no accepted address is another peer's, spelled differently. */
  lemma UpdateKeepsAddresses(c: Conf, id: string, alias: string, ip: Ip, allowExit: bool)
    requires ValidSubnet(c.subnet) && AddressesGood(c)
    ensures AddressesGood(UpdatePeer(c, id, alias, ip, allowExit))
            <==> !(AcceptsUpdate(c, id, alias, ip) && Respelled(c, ip, id))
  {
    if AcceptsUpdate(c, id, alias, ip) {
      UsableKeepsAddresses(c, id, UpdatePeer(c, id, alias, ip, allowExit).peers[id]);
    }
  }

  /** 10.66.0.1/24 with peers at 10.66.0.2 and 10.66.0.3. */
  function SmallNet(): Conf {
    Conf(Subnet(0x0a42_0001, 24), None,
         map["b" := KnownPeer("b", "b", Dotted(0x0a42_0002), true, false, ""),
             "d" := KnownPeer("d", "d", Dotted(0x0a42_0003), true, false, "")],
         {}, map[], [])
  }

  lemma SmallNetBounds()
    ensures Network(SmallNet().subnet) == 0x0a42_0000 && Broadcast(SmallNet().subnet) == 0x0a42_00ff
  {
    assert Pow2(8) == 0x100;
  }

  lemma SmallNetHasRoom()
    ensures HasRoom(SmallNet())
  {
    var c := SmallNet();
    var last: Address := 0x0a42_0003;
    SmallNetBounds();
    assert Holds(c, "d", last);
    assert IsMaxInUse(c, last);
    assert 0x0a42_0004 !in Reserved(c);
  }

  lemma SmallNetIsProper()
    ensures AliasesDistinct(SmallNet()) && AddressesGood(SmallNet())
  {
    SmallNetBounds();
  }

  /** 10.66.0.2 given to the second peer as ::ffff:10.66.0.2, with the rest of the subnet free. */
  lemma SpelledTwice() returns (c: Conf, ip: Ip)
    ensures ValidSubnet(c.subnet) && AliasesDistinct(c) && AddressesGood(c) && HasRoom(c)
    ensures AcceptsUpdate(c, "d", "d", ip) && !AddressesGood(UpdatePeer(c, "d", "d", ip, false))
  {
    c, ip := SmallNet(), Spelled(0x0a42_0002, 1);
    SmallNetIsProper();
    SmallNetHasRoom();
    MappedIsAccepted(c, ip);
    UpdateKeepsAddresses(c, "d", "d", ip, false);
  }

  lemma MappedIsAccepted(c: Conf, ip: Ip)
    requires c == SmallNet() && ip == Spelled(0x0a42_0002, 1)
    ensures AcceptsUpdate(c, "d", "d", ip) && Respelled(c, ip, "d")
  {
    SmallNetBounds();
    assert Holds(c, "b", 0x0a42_0002);
  }

  /** What adding a peer needs to keep addresses proper: an address nobody spells differently, or room for a generated one. */
  ghost predicate AddsProperly(c: Conf, p: Params)
    requires ValidSubnet(c.subnet)
  {
    if p.ip.Unset? then HasRoom(c) else !Respelled(c, p.ip, p.id)
  }

  /**
   Adding a peer keeps every address proper exactly then; with no room left the generator hands out
   an address beyond the subnet or one in use.
   */
  lemma AddKeepsAddresses(c: Conf, p: Params, now: int, c': Conf)
    requires ValidSubnet(c.subnet) && "" !in c.peers && AddressesGood(c)
    requires AddPeer(c, p, now, c', Added)
    ensures AddressesGood(c') <==> AddsProperly(c, p)
  {
    var base, alias, ip, allowExit, inviteId := Anatomy(c, p, now, c');
    var peer := KnownPeer(p.name, alias, ip, p.confirmed, allowExit, inviteId);
    var inserted := c.(peers := c.peers[p.id := peer]);
    SameGood(inserted, c');
    if p.ip.Unset? {
      GeneratedProperIffRoom(c, ip.value);
      GivenKeepsAddresses(c, p.id, peer);
    } else {
      UsableKeepsAddresses(c, p.id, peer);
    }
  }

  lemma SameGood(c: Conf, d: Conf)
    requires ValidSubnet(c.subnet) && d.subnet == c.subnet && d.dns == c.dns && d.peers == c.peers
    ensures AddressesGood(d) <==> AddressesGood(c)
  {
    assert forall o, a: Address :: Holds(c, o, a) <==> Holds(d, o, a);
  }

  /** A generated address may be given to a peer without one exactly if it is an unused one of the subnet. */
  lemma GivenKeepsAddresses(c: Conf, id: string, peer: KnownPeer)
    requires ValidSubnet(c.subnet) && AddressesGood(c) && IsNext(c, peer.ip) && (id in c.peers ==> !c.peers[id].ip.Spelled?)
    ensures AddressesGood(c.(peers := c.peers[id := peer])) <==> Inside(c.subnet, peer.ip.value) && !InUse(c, peer.ip.value)
  {
    var c', a := c.(peers := c.peers[id := peer]), peer.ip.value;
    assert c'.peers[id] == peer;
    if Inside(c.subnet, a) && !InUse(c, a) {
      GeneratedIsUsable(c, {}, a, id);
      UsableKeepsAddresses(c, id, peer);
    } else if Inside(c.subnet, a) && a != c.subnet.local {
      var o :| o in c.peers && Holds(c, o, a);
      assert Holds(c', o, c'.peers[id].ip.value);
    }
  }

  lemma OtherOutcomesKeepPeers(c: Conf, p: Params, now: int, c': Conf, out: Outcome)
    requires ValidSubnet(c.subnet) && AddPeer(c, p, now, c', out) && out != Added
    ensures c'.peers == c.peers && c'.log == c.log && c'.subnet == c.subnet && c'.dns == c.dns
  {
  }

  // ---- Conservation of invites ---------------------------------------------------------------------

  lemma SnocKeepsOrder(log: seq<Event>, e: Event)
    requires NoInsertionAfterRevocation(log) && (e.Inserted? ==> Revoked(e.id) !in log)
    ensures NoInsertionAfterRevocation(log + [e])
  {
  }

  lemma SpendAndInsertConserve(c: Conf, p: Params, now: int, id: string, peers: map<string, KnownPeer>, blocked: set<string>)
    requires Conserved(c) && Redeems(c, p.token, now, id)
    ensures Conserved(Spend(c, id).(peers := peers, blocked := blocked, log := c.log + [Inserted(id)]))
  {
    SnocKeepsOrder(c.log, Inserted(id));
    forall i | i in c.invites { InsertionsSnoc(c.log, Inserted(id), i); }
  }

  lemma PlainInsertConserves(c: Conf, peers: map<string, KnownPeer>, blocked: set<string>)
    requires Conserved(c)
    ensures Conserved(c.(peers := peers, blocked := blocked, log := c.log + [Inserted("")]))
  {
  }

  /** Parameters of the callers that redeem an invite: nothing can fail after the reservation. */
  predicate RedeemsSafely(p: Params) {
    p.token == "" || (p.uniquifyAlias && p.ip.Unset?)
  }

  /** What can be seen before the call: the token opens an invite, and the alias or address it brings is refused. */
  predicate LosesUse(c: Conf, p: Params, now: int)
    requires ValidSubnet(c.subnet)
  {
    && p.id !in c.peers
    && exists id :: id in c.invites && Redeems(c, p.token, now, id)
                    && ((!p.uniquifyAlias && !IsUniqueAlias(c, "", c.invites[id].alias))
                        || (!p.ip.Unset? && !AddressUsable(c, p.ip, p.id)))
  }

  /** AddPeer refuses the alias or address under a token exactly then. */
  lemma LosesUseMeansRefused(c: Conf, p: Params, now: int, c': Conf, out: Outcome)
    requires ValidSubnet(c.subnet) && TokensDistinct(c) && AddPeer(c, p, now, c', out)
    ensures LosesUse(c, p, now) <==> p.token != "" && (out == AliasTaken || out == AddressTaken)
  {
    if p.token != "" && out != AlreadyKnown && out != InviteRejected {
      var id := Redeemed(c, p, now, c', out);
      var spent := Spend(c.(blocked := c.blocked - {p.id}), id);
      assert IsUniqueAlias(spent, "", c.invites[id].alias) <==> IsUniqueAlias(c, "", c.invites[id].alias);
      assert AddressUsable(spent, p.ip, p.id) <==> AddressUsable(c, p.ip, p.id);
      assert forall i :: i in c.invites && Redeems(c, p.token, now, i) ==> i == id;
    }
  }

  /**
   AddPeer conserves invites exactly when it does not lose a reserved use, which a caller can tell
   beforehand; with parameters like those of the callers that redeem invites it never does.
   */
  lemma AddConserves(c: Conf, p: Params, now: int, c': Conf, out: Outcome)
    requires ValidSubnet(c.subnet) && "" !in c.peers && Conserved(c) && AddPeer(c, p, now, c', out)
    ensures Conserved(c') <==> !LosesUse(c, p, now)
    ensures RedeemsSafely(p) ==> !LosesUse(c, p, now)
  {
    LosesUseMeansRefused(c, p, now, c', out);
    if out == Added {
      AddedConserves(c, p, now, c');
    } else if p.token != "" && (out == AliasTaken || out == AddressTaken) {
      LostUse(c, p, now, c', out);
    } else {
      assert c' == c.(blocked := c'.blocked);
    }
  }

  lemma AddedConserves(c: Conf, p: Params, now: int, c': Conf)
    requires ValidSubnet(c.subnet) && "" !in c.peers && Conserved(c) && AddPeer(c, p, now, c', Added)
    ensures Conserved(c')
  {
    var base, alias, ip, allowExit, inviteId := Anatomy(c, p, now, c');
    if p.token == "" {
      PlainInsertConserves(c, c'.peers, c'.blocked);
    } else {
      SpendAndInsertConserve(c, p, now, inviteId, c'.peers, c'.blocked);
      assert c' == Spend(c, inviteId).(peers := c'.peers, blocked := c'.blocked, log := c.log + [Inserted(inviteId)]);
    }
  }

  lemma LostUse(c: Conf, p: Params, now: int, c': Conf, out: Outcome)
    requires ValidSubnet(c.subnet) && Conserved(c) && AddPeer(c, p, now, c', out)
    requires p.token != "" && (out == AliasTaken || out == AddressTaken)
    ensures !Conserved(c') && !RedeemsSafely(p)
  {
    var id := Redeemed(c, p, now, c', out);
    assert c'.invites[id].usedCount == Insertions(c.log, id) + 1 && c'.log == c.log;
  }

  /** An invite for the alias of a peer already there: redeemed without a fresh alias, its use is gone. */
  lemma UseLost() returns (c: Conf, p: Params, now: int, c': Conf)
    ensures ValidSubnet(c.subnet) && AliasesDistinct(c) && AddressesGood(c) && Conserved(c)
    ensures AddPeer(c, p, now, c', AliasTaken) && LosesUse(c, p, now) && !Conserved(c')
  {
    var invite := Invite("i", "t", "laptop", false, 1, 0, None, false);
    c := Conf(Subnet(0x0a42_0001, 24), None, map["b" := KnownPeer("b", "laptop", Unset, true, false, "")], {}, map["i" := invite], []);
    p, now := Params("d", "d", "", false, true, Unset, false, "t"), 0;
    c' := Spend(c.(blocked := c.blocked - {p.id}), "i");
    assert Redeems(c, p.token, now, "i");
    assert !IsUniqueAlias(c, "", "laptop") && !IsUniqueAlias(c', "", "laptop") by { assert c.peers["b"].alias == "laptop"; }
    AddConserves(c, p, now, c', AliasTaken);
  }

  lemma RevokeConserves(c: Conf, id: string)
    requires Conserved(c)
    ensures Conserved(RevokeInvite(c, id))
  {
    if id in c.invites && !c.invites[id].revoked {
      SnocKeepsOrder(c.log, Revoked(id));
      forall i | i in c.invites { InsertionsSnoc(c.log, Revoked(id), i); }
    }
  }

  lemma {:induction false} NoInsertions(log: seq<Event>, id: string)
    requires forall e :: e in log ==> e.id != id
    ensures Insertions(log, id) == 0
  {
    if log != [] {
      assert log[|log| - 1] in log;
      NoInsertions(log[..|log| - 1], id);
    }
  }

  lemma CreateConserves(c: Conf, id: string, token: string, alias: string, allowExit: bool, maxUses: int, expiresAt: Option<int>)
    requires Conserved(c) && id != "" && token != "" && id !in c.invites
    requires forall i :: i in c.invites ==> c.invites[i].token != token
    ensures Conserved(CreateInvite(c, id, token, alias, allowExit, maxUses, expiresAt))
  {
    NoInsertions(c.log, id);
  }
}

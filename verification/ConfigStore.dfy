/**
 The configuration object of a running node (config/config.go, config/network_addr.go, config/invites.go)
 and the operations that change it in one critical section each, proved against `Membership` and `Loading`.
 */
module ConfigStore {
  import opened Wrappers
  import opened Addresses
  import opened Aliases
  import opened Membership
  import opened Loading

  /** Why a token does not open anything. */
  datatype Lookup = Found(id: string) | NotFound | InviteRevoked | InviteExpired | InviteUsedUp

  class Config {
    const subnet: Subnet
    var dns: Option<Address>
    var peers: map<string, KnownPeer>
    var blocked: set<string>
    var invites: map<string, Invite>
    ghost var log: seq<Event>

    ghost function State(): Conf
      reads this
    {
      Conf(subnet, dns, peers, blocked, invites, log)
    }

    // ---- Addresses and aliases ---------------------------------------------------------------------

    method MaxInUse() returns (m: Address)
      requires ValidSubnet(subnet)
      ensures IsMaxInUse(State(), m)
    {
      m := subnet.local;
      var left := peers.Keys;
      while left != {}
        invariant left <= peers.Keys && InUse(State(), m) && subnet.local <= m
        invariant forall id :: id in peers && id !in left && peers[id].ip.Spelled? && Inside(subnet, peers[id].ip.value) ==>
          peers[id].ip.value <= m
      {
        var id :| id in left;
        if peers[id].ip.Spelled? && Inside(subnet, peers[id].ip.value) && peers[id].ip.value > m {
          m := peers[id].ip.value;
          assert Holds(State(), id, m);
        }
        left := left - {id};
      }
    }

    method GenerateNextIpAddrExcept(except: seq<Address>) returns (ip: Address, steps: nat)
      requires ValidSubnet(subnet) && |except| + 2 < SPACE
      ensures IsGenerated(State(), set a | a in except :: a as int, ip)
      ensures steps <= |except| + 3
    {
      var m := MaxInUse();
      var excluded := set a | a in except :: a as int;
      ListSize(except);
      UnionSize(excluded, Reserved(Conf(subnet, dns, peers, blocked, invites, [])));
      ghost var reserved := Reserved(State());
      var all := excluded + {Broadcast(subnet)} + if dns.Some? then {dns.value as int} else {};
      assert all == excluded + reserved;
      ip, steps := SearchFree(m, all);
    }

    /** A text that does not read as an address is refused. */
    method CheckIPUnique(ip: Ip, exceptId: string) returns (ok: bool)
      requires ValidSubnet(subnet)
      ensures ok <==> AddressUsable(State(), ip, exceptId)
    {
      if !ip.Spelled? {
        return false;
      }
      var a := ip.value;
      if !Inside(subnet, a) || a == Broadcast(subnet) || a == subnet.local || dns == Some(a) {
        return false;
      }
      var left := peers.Keys;
      while left != {}
        invariant left <= peers.Keys
        invariant forall id :: id in peers && id !in left && peers[id].ip == ip ==> exceptId != "" && id == exceptId
      {
        var id :| id in left;
        if peers[id].ip == ip && !(exceptId != "" && id == exceptId) {
          return false;
        }
        left := left - {id};
      }
      return true;
    }

    method IsUniqPeerAlias(exceptId: string, alias: string) returns (ok: bool)
      ensures ok <==> IsUniqueAlias(State(), exceptId, alias)
    {
      var left := peers.Keys;
      while left != {}
        invariant left <= peers.Keys
        invariant forall id :: id in peers && id !in left ==> id == exceptId || peers[id].alias != alias
      {
        var id :| id in left;
        if id != exceptId && peers[id].alias == alias {
          return false;
        }
        left := left - {id};
      }
      return true;
    }

    /** The highest free address below broadcast, searched downwards; nothing is reserved yet. */
    method ComputeNetstackDNSIP() returns (r: Option<Address>)
      requires ValidSubnet(subnet) && dns == None
      ensures IsDns(State(), r)
    {
      SubnetBounds(subnet);
      var candidate: Address := (Broadcast(subnet) - 1) % SPACE;
      while candidate > Network(subnet)
        invariant forall a: Address :: Candidate(State(), a) ==> a <= candidate
      {
        assert State().(dns := None) == State();
        var ok := CheckIPUnique(Dotted(candidate), "");
        if ok {
          return Some(candidate);
        }
        candidate := candidate - 1;
      }
      return None;
    }

    // ---- Invites -----------------------------------------------------------------------------------

    /** Tokens are random 128-bit values, taken to be distinct. */
    method FindUsableInvite(token: string, now: int) returns (r: Lookup)
      requires TokensDistinct(State())
      ensures r.Found? ==> Redeems(State(), token, now, r.id)
      ensures !r.Found? ==> forall id :: !Redeems(State(), token, now, id)
      ensures token != "" ==> forall id :: id in invites && invites[id].token == token ==>
        && (r == InviteRevoked <==> invites[id].revoked)
        && (r == InviteExpired <==> !invites[id].revoked && IsExpired(invites[id], now))
        && (r == InviteUsedUp <==> !invites[id].revoked && !IsExpired(invites[id], now) && IsUsedUp(invites[id]))
      ensures r == NotFound <==> token == "" || forall id :: id in invites ==> invites[id].token != token
    {
      if token == "" {
        return NotFound;
      }
      var left := invites.Keys;
      while left != {}
        invariant left <= invites.Keys
        invariant forall id :: id in invites && id !in left ==> invites[id].token != token
      {
        var id :| id in left;
        var i := invites[id];
        if i.token == token {
          if i.revoked {
            return InviteRevoked;
          } else if IsExpired(i, now) {
            return InviteExpired;
          } else if IsUsedUp(i) {
            return InviteUsedUp;
          }
          return Found(id);
        }
        left := left - {id};
      }
      return NotFound;
    }

    method ReserveInvite(token: string, now: int) returns (r: Lookup)
      requires TokensDistinct(State())
      modifies `invites
      ensures r.Found? ==> Redeems(old(State()), token, now, r.id) && State() == Spend(old(State()), r.id)
      ensures !r.Found? ==> State() == old(State()) && forall id :: !Redeems(State(), token, now, id)
    {
      r := FindUsableInvite(token, now);
      if r.Found? {
        invites := invites[r.id := invites[r.id].(usedCount := invites[r.id].usedCount + 1)];
      }
    }

    /** `draws` are the ids drawn at random; the first unused one of the first ten is taken. */
    method CreateInvite(draws: seq<string>, token: string, alias: string, allowExit: bool, maxUses: int, expiresAt: Option<int>)
        returns (id: Option<string>)
      requires |draws| == 10
      modifies `invites
      ensures id.Some? ==> exists k :: 0 <= k < 10 && draws[k] == id.value && draws[k] !in old(invites)
                                    && forall j :: 0 <= j < k ==> draws[j] in old(invites)
      ensures id.Some? ==>
        State() == Membership.CreateInvite(old(State()), id.value, token, alias, allowExit, maxUses, expiresAt)
      ensures id.None? ==> State() == old(State()) && forall d :: d in draws ==> d in invites
    {
      var k := 0;
      while k < 10 && draws[k] in invites
        invariant k <= 10 && forall j :: 0 <= j < k ==> draws[j] in invites
      {
        k := k + 1;
      }
      if k == 10 {
        return None;
      }
      var uses := if maxUses < 1 then 1 else maxUses;
      invites := invites[draws[k] := Invite(draws[k], token, alias, allowExit, uses, 0, expiresAt, false)];
      return Some(draws[k]);
    }

    method RevokeInvite(id: string) returns (exists_: bool)
      modifies `invites, `log
      ensures State() == Membership.RevokeInvite(old(State()), id) && exists_ == (id in old(invites))
    {
      if id !in invites {
        return false;
      }
      if !invites[id].revoked {
        invites := invites[id := invites[id].(revoked := true)];
        log := log + [Revoked(id)];
      }
      return true;
    }

    // ---- Peers -------------------------------------------------------------------------------------

    /** Everything AddPeer does once a possible reservation is made. */
    method AddAfterReservation(p: Params, wish: string, allowExit: bool, inviteId: string) returns (out: Outcome)
      requires ValidSubnet(subnet) && p.id !in peers
      modifies `peers, `log
      ensures AddChecked(old(State()), p, wish, allowExit, inviteId, State(), out)
    {
      var alias := wish;
      if p.uniquifyAlias {
        alias := GenUniqPeerAlias(p.name, wish, set id | id in peers :: peers[id].alias);
        assert IsFresh(p.name, wish, UsedAliases(State()), alias);
      } else {
        var unique := IsUniqPeerAlias("", wish);
        if !unique {
          return AliasTaken;
        }
      }
      var ip := p.ip;
      if !ip.Unset? {
        var ok := CheckIPUnique(ip, p.id);
        if !ok {
          return AddressTaken;
        }
      } else {
        var a, steps := GenerateNextIpAddrExcept([]);
        assert (set a: Address | a in [] :: a as int) == {};
        ip := Dotted(a);
        assert IsNext(State(), ip);
      }
      peers := peers[p.id := KnownPeer(p.name, alias, ip, p.confirmed, allowExit, inviteId)];
      log := log + [Inserted(inviteId)];
      assert State() == Insert(old(State()), p, alias, ip, allowExit, inviteId);
      return Added;
    }

    method AddPeer(p: Params, now: int) returns (out: Outcome)
      requires ValidSubnet(subnet) && TokensDistinct(State())
      modifies this
      ensures Membership.AddPeer(old(State()), p, now, State(), out)
    {
      blocked := blocked - {p.id};
      if p.id in peers {
        return AlreadyKnown;
      }
      if p.token == "" {
        out := AddAfterReservation(p, p.alias, p.allowExit, "");
        return;
      }
      ghost var open := State();
      var r := ReserveInvite(p.token, now);
      if !r.Found? {
        assert forall id :: Redeems(old(State()), p.token, now, id) ==> Redeems(open, p.token, now, id);
        return InviteRejected;
      }
      assert Redeems(old(State()), p.token, now, r.id);
      var invite := invites[r.id];
      out := AddAfterReservation(p, invite.alias, invite.allowExit, r.id);
    }

    method UpdatePeerSettings(id: string, alias: string, ip: Ip, allowExit: bool) returns (ok: bool)
      requires ValidSubnet(subnet)
      modifies `peers
      ensures State() == UpdatePeer(old(State()), id, alias, ip, allowExit)
      ensures ok <==> AcceptsUpdate(old(State()), id, alias, ip)
    {
      if id !in peers {
        return false;
      }
      var unique := IsUniqPeerAlias(id, alias);
      if !unique {
        return false;
      }
      var usable := CheckIPUnique(ip, id);
      if !usable {
        return false;
      }
      peers := peers[id := peers[id].(alias := alias, ip := ip, allowExit := allowExit)];
      return true;
    }

    method RemovePeer(id: string) returns (known: bool)
      modifies `peers
      ensures State() == Membership.RemovePeer(old(State()), id) && known == (id in old(peers))
    {
      known := id in peers;
      peers := peers - {id};
    }

    /** processPeerStatusInfo of a peer that does not decline; an unknown peer is passed over. */
    method MergeStatus(id: string, name: string)
      modifies `peers
      ensures Membership.MergeStatus(old(State()), id, name, State())
    {
      if id in peers {
        var peer := peers[id];
        var alias := peer.alias;
        if alias == "" {
          alias := GenUniqPeerAlias(name, "", set o | o in peers :: peers[o].alias);
          assert IsFresh(name, "", UsedAliases(State()), alias);
        }
        peers := peers[id := peer.(name := name, confirmed := true, alias := alias)];
        assert State() == old(State()).(peers := old(peers)[id := old(peers)[id].(name := name, confirmed := true, alias := alias)]);
      }
    }

    /** An address to suggest for each of `n` pending requests. */
    method Suggest(n: nat) returns (ips: seq<Address>)
      requires ValidSubnet(subnet) && n + 2 < SPACE
      ensures |ips| == n && forall i, j :: 0 <= i < j < n ==> ips[i] != ips[j]
      ensures forall i :: 0 <= i < n && Inside(subnet, ips[i]) && !InUse(State(), ips[i]) ==> AddressUsable(State(), Dotted(ips[i]), "")
      ensures subnet.bits > 0 && n < SPACE / 2 - 3 ==> forall i :: 0 <= i < n && Inside(subnet, ips[i]) ==> !InUse(State(), ips[i])
    {
      ips := [];
      while |ips| < n
        invariant |ips| <= n && forall i, j :: 0 <= i < j < |ips| ==> ips[i] != ips[j]
        invariant forall i :: 0 <= i < |ips| && Inside(subnet, ips[i]) && !InUse(State(), ips[i]) ==>
                    AddressUsable(State(), Dotted(ips[i]), "")
        invariant subnet.bits > 0 && n < SPACE / 2 - 3 ==>
          forall i :: 0 <= i < |ips| && Inside(subnet, ips[i]) ==> !InUse(State(), ips[i])
      {
        var ip, _ := GenerateNextIpAddrExcept(ips);
        ListSize(ips);
        ghost var except := set a | a in ips :: a as int;
        assert ip !in except && forall a :: a in ips ==> a as int in except;
        assert ip !in ips;
        GeneratedIsUsable(State(), except, ip, "");
        ips := ips + [ip];
      }
    }

    // ---- Loading -----------------------------------------------------------------------------------

    /** One turn of the loading loop. */
    method Complete(id: string, used: set<string>) returns (alias: string)
      requires ValidSubnet(subnet) && id in peers
      modifies `peers
      ensures Turn(old(State()), id, used, alias, State())
    {
      var peer := peers[id];
      alias := GenUniqPeerAlias(peer.name, peer.alias, used);
      peer := peer.(alias := alias);
      if peer.ip.Unset? {
        var ip, _ := GenerateNextIpAddrExcept([]);
        assert (set a: Address | a in [] :: a as int) == {};
        assert dns != Some(ip);
        peer := peer.(ip := Dotted(ip));
      }
      peers := peers[id := peer];
    }

    /** The loading loop, in whatever order the map yields the peers; `order` and `t` are what it went through. */
    method CompleteAll() returns (ghost order: seq<string>, ghost t: seq<Conf>)
      requires ValidSubnet(subnet)
      modifies `peers
      ensures |t| == |order| + 1 && t[0] == old(State()) && t[|order|] == State()
      ensures Visited(order, |order|) == old(peers.Keys)
      ensures forall i: nat :: i < |order| ==> TurnAt(order, t, i)
    {
      order, t := [], [State()];
      var used, left := {}, peers.Keys;
      while left != {}
        invariant |t| == |order| + 1 && t[0] == old(State()) && t[|order|] == State() && peers.Keys == old(peers.Keys)
        invariant left + Visited(order, |order|) == peers.Keys && left !! Visited(order, |order|)
        invariant used == AliasesOf(State(), Visited(order, |order|))
        invariant forall i: nat :: i < |order| ==> TurnAt(order, t, i)
      {
        var id :| id in left;
        var alias := Complete(id, used);
        TurnAppended(order, t, id, used, alias, State());
        order, t := order + [id], t + [State()];
        left, used := left - {id}, used + {alias};
      }
      assert Visited(order, |order|) == {} + Visited(order, |order|);
    }

    /**
     Loading completes every peer.  If the stored addresses were proper, all addresses are proper
     afterwards exactly when the reserved one was nobody's and enough of them could be given out.
     */
    method Load()
      requires ValidSubnet(subnet) && dns == None
      modifies `dns, `peers
      ensures Loads(old(State()), State()) && Loaded(old(State()), State())
      ensures old(AddressesGood(State())) ==> Served(old(State()), State())
    {
      ghost var c0 := State();
      dns := ComputeNetstackDNSIP();
      ghost var order, t := CompleteAll();
      assert IsLoading(c0, order, t);
      LoadsServe(c0, State());
    }
  }

  lemma {:induction false} ListSize(s: seq<Address>)
    ensures |set a | a in s :: a as int| <= |s|
  {
    var elements := set a | a in s :: a as int;
    if s == [] {
      assert elements == {};
    } else {
      ListSize(s[1..]);
      assert forall a :: a in s ==> a == s[0] || a in s[1..];
      var rest := set a | a in s[1..] :: a as int;
      assert elements <= rest + {s[0] as int};
      SubsetSize(elements, rest + {s[0] as int});
    }
  }
}

/**
 The tunnel object (service/tunnel.go): its peers with their channels, the index from addresses to
 peers and the gateway pointer, under refreshes, gateway binding, sends and Close.  Each method is one
 critical section under the peers lock.
 */
module TunnelState {
  import opened Wrappers
  import opened Bytes
  import opened Checksum
  import opened PacketView
  import R = Routing
  import opened PeerIndex

  const PACKET_HANDLERS_CHAN_CAP := 2000

  /** A peer as the configuration has it; `ip4` is missing when the stored address does not parse. */
  datatype ConfPeer = ConfPeer(ip4: Option<Addr4>, ip6: Option<Addr6>, allowExit: bool, canBeGateway: bool)

  type Conf = map<PeerId, ConfPeer>

  function Key6(ip6: Option<Addr6>): Option<Key> {
    if ip6.Some? then Some(R.Canonical(ip6.value)) else None
  }

  /** The index only sees canonical addresses. */
  function KeysOf(conf: Conf): map<PeerId, Known> {
    map id | id in conf ::
      Known(if conf[id].ip4.Some? then Some(conf[id].ip4.value) else None, Key6(conf[id].ip6), conf[id].allowExit)
  }

  /** Offering a packet to a channel that may be full. */
  function Offer(queue: seq<View>, p: View): seq<View> {
    if |queue| < PACKET_HANDLERS_CHAN_CAP then queue + [p] else queue
  }

  /** What is in a peer's outbound channel after a packet was handled. */
  function QueueAfter(d: R.Decision, id: PeerId, queue: seq<View>, p: View, connected: set<PeerId>): seq<View> {
    match d
    case ToPeer(to, dir) => if to == id then Offer(queue, p.(dir := dir)) else queue
    case Broadcast => if id in connected then Offer(queue, p) else queue
    case Intercept => queue
    case Ignore => queue
  }

  class VpnPeer {
    const id: PeerId
    var ip4: Addr4
    var ip6: Option<Addr6>
    var allowExit: bool
    var closed: bool
    var inbound: seq<View>
    var outbound: seq<View>

    constructor (id: PeerId, ip4: Addr4, ip6: Option<Addr6>)
      ensures this.id == id && this.ip4 == ip4 && this.ip6 == ip6
      ensures !allowExit && !closed && inbound == [] && outbound == []
    {
      this.id, this.ip4, this.ip6 := id, ip4, ip6;
      allowExit, closed, inbound, outbound := false, false, [], [];
    }

    /** Closing a closed channel, or sending on one, would stop the program. */
    method Close()
      requires !closed
      modifies `closed, `inbound, `outbound
      ensures closed && inbound == [] && outbound == []
    {
      closed := true;
      inbound, outbound := [], [];
    }

    method Send(p: View) returns (ok: bool)
      requires !closed
      modifies `outbound
      ensures outbound == Offer(old(outbound), p) && (ok <==> |old(outbound)| < PACKET_HANDLERS_CHAN_CAP)
      ensures outbound == if ok then old(outbound) + [p] else old(outbound)
    {
      ok := |outbound| < PACKET_HANDLERS_CHAN_CAP;
      if ok {
        outbound := outbound + [p];
      }
    }

    method Receive(p: View) returns (ok: bool)
      requires !closed
      modifies `inbound
      ensures inbound == Offer(old(inbound), p) && (ok <==> |old(inbound)| < PACKET_HANDLERS_CHAN_CAP)
      ensures inbound == if ok then old(inbound) + [p] else old(inbound)
    {
      ok := |inbound| < PACKET_HANDLERS_CHAN_CAP;
      if ok {
        inbound := inbound + [p];
      }
    }
  }

  class Tunnel {
    const subnet4: R.Subnet
    const subnet6: Option<R.Subnet>
    var peers: map<PeerId, VpnPeer>
    var index: map<Key, VpnPeer>
    /** The peers' addresses, and which of them each entry stands for. */
    ghost var state: Index
    var clientEnabled: bool
    var gatewayId: PeerId
    var gateway: VpnPeer?
    var serverEnabled: bool
    var isClosed: bool

    ghost predicate Open()
      reads this, peers.Values`ip4, peers.Values`ip6, peers.Values`closed
    {
      && state.addrs.Keys == peers.Keys
      && forall id :: id in peers ==>
           && peers[id].id == id && !peers[id].closed
           && state.addrs[id].ip4 == Some(peers[id].ip4) && state.addrs[id].ip6 == Key6(peers[id].ip6)
    }

    ghost predicate Indexed()
      reads this
    {
      && state.owner.Keys == index.Keys
      && forall k :: k in index ==> state.owner[k].id in peers && index[k] == peers[state.owner[k].id]
    }

    /** No peer of the tunnel is closed, and every entry leads to one of them. */
    ghost predicate Linked()
      reads this, peers.Values`ip4, peers.Values`ip6, peers.Values`closed
    {
      Open() && Indexed()
    }

    ghost predicate Bound()
      reads this
    {
      && (clientEnabled ==> gatewayId in peers && gateway == peers[gatewayId])
      && (!clientEnabled ==> gateway == null)
    }

    predicate WellFormed() {
      |subnet4.ip| == 4 && (subnet6.Some? ==> |subnet6.value.ip| == 16)
    }

    ghost predicate Valid()
      reads this, peers.Values`ip4, peers.Values`ip6, peers.Values`closed
    {
      && WellFormed() && Linked() && Sound(state)
      && (isClosed ==> peers == map[] && index == map[])
      && (!isClosed ==> Bound())
    }

    /** A new tunnel, before its first refresh. */
    constructor (subnet4: R.Subnet, subnet6: Option<R.Subnet>, serverEnabled: bool)
      requires |subnet4.ip| == 4 && (subnet6.Some? ==> |subnet6.value.ip| == 16)
      ensures Valid() && !isClosed && peers == map[] && !clientEnabled && this.serverEnabled == serverEnabled
      ensures Complete(state)
    {
      this.subnet4, this.subnet6, this.serverEnabled := subnet4, subnet6, serverEnabled;
      peers, index, state := map[], map[], Index(map[], map[]);
      clientEnabled, gatewayId, gateway, isClosed := false, "", null, false;
    }

    // ---- One peer of a refresh ---------------------------------------------------------------------

    method Forget(k: Option<Key>)
      requires Linked()
      modifies `index, `state
      ensures Linked() && state == old(state).(owner := Without(old(state.owner), k))
    {
      if k.Some? {
        index := index - {k.value};
        state := state.(owner := state.owner - {k.value});
      }
    }

    method Enter(k: Option<Key>, p: VpnPeer, ghost s: Slot)
      requires Linked() && s.id in peers && peers[s.id] == p
      modifies `index, `state
      ensures Linked() && state == old(state).(owner := With(old(state.owner), k, s))
    {
      if k.Some? {
        index := index[k.value := p];
        state := state.(owner := state.owner[k.value := s]);
      }
    }

    method Store4(p: VpnPeer, ip4: Addr4)
      requires Linked() && p.id in peers && peers[p.id] == p
      modifies `state, p`ip4
      ensures Linked() && state == old(state).(addrs := Hold(old(state), Slot(p.id, false), Some(ip4)))
    {
      p.ip4 := ip4;
      state := state.(addrs := Hold(state, Slot(p.id, false), Some(ip4)));
    }

    method Store6(p: VpnPeer, ip6: Option<Addr6>)
      requires Linked() && p.id in peers && peers[p.id] == p
      modifies `state, p`ip6
      ensures Linked() && state == old(state).(addrs := Hold(old(state), Slot(p.id, true), Key6(ip6)))
    {
      p.ip6 := ip6;
      state := state.(addrs := Hold(state, Slot(p.id, true), Key6(ip6)));
    }

    method Readdress4(p: VpnPeer, ip4: Addr4)
      requires Linked() && p.id in peers && peers[p.id] == p
      modifies `index, `state, p`ip4
      ensures Linked() && state == Move(old(state), Slot(p.id, false), Some(ip4))
    {
      if p.ip4 == ip4 {
        return;
      }
      ghost var s := Slot(p.id, false);
      Forget(Some(p.ip4));
      Store4(p, ip4);
      Enter(Some(ip4), p, s);
    }

    method Readdress6(p: VpnPeer, ip6: Option<Addr6>)
      requires Linked() && p.id in peers && peers[p.id] == p
      modifies `index, `state, p`ip6
      ensures Linked() && state == Move(old(state), Slot(p.id, true), Key6(ip6))
    {
      if Key6(p.ip6) == Key6(ip6) {
        return;
      }
      ghost var s := Slot(p.id, true);
      Forget(Key6(p.ip6));
      Store6(p, ip6);
      Enter(Key6(ip6), p, s);
    }

    method AddPeer(id: PeerId, ip4: Addr4, ip6: Option<Addr6>)
      requires Linked() && id !in peers
      modifies `peers, `index, `state
      ensures Linked() && state == Move(Move(old(state), Slot(id, false), Some(ip4)), Slot(id, true), Key6(ip6))
      ensures id in peers && fresh(peers[id]) && peers == old(peers)[id := peers[id]]
    {
      MoveNew(state, id, Some(ip4), Key6(ip6));
      Install(id, ip4, ip6);
      Enter(Some(ip4), peers[id], Slot(id, false));
      Enter(Key6(ip6), peers[id], Slot(id, true));
    }

    method Install(id: PeerId, ip4: Addr4, ip6: Option<Addr6>)
      requires Linked() && id !in peers
      modifies `peers, `state
      ensures Linked() && state == old(state).(addrs := old(state.addrs)[id := Addrs(Some(ip4), Key6(ip6))])
      ensures id in peers && fresh(peers[id]) && peers == old(peers)[id := peers[id]]
    {
      var p := new VpnPeer(id, ip4, ip6);
      peers := peers[id := p];
      state := state.(addrs := state.addrs[id := Addrs(Some(ip4), Key6(ip6))]);
    }

    /** Taking a peer out to which no entry leads any more. */
    method Detach(id: PeerId)
      requires Linked() && id in peers && forall k :: k in state.owner ==> state.owner[k].id != id
      modifies this`peers, this`state, peers[id]
      ensures Linked() && state == old(state).(addrs := old(state.addrs) - {id})
      ensures peers == old(peers) - {id} && old(peers)[id].closed
    {
      peers[id].Close();
      peers := peers - {id};
      state := state.(addrs := state.addrs - {id});
    }

    method RemovePeer(id: PeerId)
      requires Linked() && Sound(state) && id in peers
      modifies this`peers, this`index, this`state, peers[id]
      ensures Linked() && state == Drop(old(state), id)
      ensures peers == old(peers) - {id} && old(peers)[id].closed
    {
      DropOwner(state, id);
      Forget(Some(peers[id].ip4));
      Forget(Key6(peers[id].ip6));
      Detach(id);
    }

    // ---- Refresh -----------------------------------------------------------------------------------

    /** One turn of the update loop; a peer whose address does not parse is passed over. */
    method Update(id: PeerId, conf: ConfPeer)
      requires Linked() && conf.ip4.Some?
      modifies this`peers, this`index, this`state, peers.Values`ip4, peers.Values`ip6
      ensures Linked() && old(peers.Keys) + {id} == peers.Keys
      ensures state == Move(Move(old(state), Slot(id, false), Some(conf.ip4.value)), Slot(id, true), Key6(conf.ip6))
      ensures forall o :: o in old(peers) ==> peers[o] == old(peers)[o]
      ensures forall o :: o in peers && o !in old(peers) ==> o == id && fresh(peers[o])
    {
      if id in peers {
        Readdress4(peers[id], conf.ip4.value);
        Readdress6(peers[id], conf.ip6);
      } else {
        AddPeer(id, conf.ip4.value, conf.ip6);
      }
    }

    method UpdateAll(conf: Conf) returns (ghost order: seq<PeerId>)
      requires Linked()
      modifies this`peers, this`index, this`state, peers.Values`ip4, peers.Values`ip6
      ensures Linked() && Enumerates(order, KeysOf(conf))
      ensures state == Process(old(state), KeysOf(conf), VisitsOf(order))
      ensures Undisturbed(old(peers)) && forall o :: o in old(peers) ==> o in peers && peers[o] == old(peers)[o]
      ensures forall o :: o in peers && o !in old(peers) ==> o in conf && fresh(peers[o])
    {
      var left := conf.Keys;
      order := [];
      while left != {}
        invariant left <= conf.Keys && Linked() && NoDuplicates(order)
        invariant forall id :: id in order <==> Addressed(KeysOf(conf), id) && id !in left
        invariant state == Process(old(state), KeysOf(conf), VisitsOf(order))
        invariant forall o :: o in old(peers) ==> o in peers && peers[o] == old(peers)[o]
        invariant forall o :: o in peers && o !in old(peers) ==> o in conf && fresh(peers[o])
      {
        var id :| id in left;
        if conf[id].ip4.Some? {
          ProcessNext(old(state), KeysOf(conf), order, id);
          NoDuplicatesSnoc(order, id);
          Update(id, conf[id]);
          order := order + [id];
        }
        left := left - {id};
      }
    }

    /** Channels that were not closed are as they were. */
    twostate predicate Undisturbed(was: map<PeerId, VpnPeer>)
      reads was.Values
    {
      forall o :: o in was ==>
        was[o].closed || (was[o].outbound == old(was[o].outbound) && was[o].inbound == old(was[o].inbound))
    }

    /** Of the peers there were, the ones in `out` are closed and gone, the others are still there. */
    ghost predicate Left(was: map<PeerId, VpnPeer>, out: set<PeerId>)
      reads this, was.Values`closed
    {
      && (forall o :: o in peers <==> o in was && o !in out)
      && (forall o :: o in peers ==> peers[o] == was[o])
      && (forall o :: o in was && o in out ==> was[o].closed)
    }

    /** The peers no longer in the configuration are closed and forgotten. */
    method DropGone(conf: Conf) returns (ghost gone: seq<PeerId>)
      requires Linked() && Sound(state)
      modifies this`peers, this`index, this`state, peers.Values
      ensures Linked() && state == DropAll(old(state), gone)
      ensures NoDuplicates(gone) && forall id :: id in gone <==> id in old(peers) && id !in conf
      ensures Left(old(peers), set id | id in gone) && Undisturbed(old(peers))
    {
      ghost var was := peers;
      var left := peers.Keys;
      gone := [];
      ghost var out: set<PeerId> := {};
      while left != {}
        invariant left <= peers.Keys && Linked() && Left(was, out) && Undisturbed(was)
        invariant forall o :: o in out <==> o in was && o !in conf && o !in left
        invariant NoDuplicates(gone) && forall id :: id in gone <==> id in out
        invariant state == DropAll(old(state), gone)
      {
        var id :| id in left;
        if id !in conf {
          NoDuplicatesSnoc(gone, id);
          DropNext(old(state), gone, id);
          StaysSound(old(state), map[], [], gone);
          RemoveNext(was, out, id);
          gone, out := gone + [id], out + {id};
        }
        left := left - {id};
      }
      assert out == set id | id in gone;
    }

    method RemoveNext(ghost was: map<PeerId, VpnPeer>, ghost out: set<PeerId>, id: PeerId)
      requires Linked() && Sound(state) && id in peers && Left(was, out)
      modifies this`peers, this`index, this`state, peers[id]
      ensures Linked() && state == Drop(old(state), id) && peers == old(peers) - {id}
      ensures Left(was, out + {id}) && Undisturbed(was)
    {
      RemovePeer(id);
    }

    /** The index follows the configuration; the peers that stay keep their channels. */
    method Resync(conf: Conf) returns (ghost order: seq<PeerId>, ghost gone: seq<PeerId>)
      requires Linked() && Sound(state)
      modifies this`peers, this`index, this`state, peers.Values
      ensures Linked() && Sound(state)
      ensures Enumerates(order, KeysOf(conf)) && Gone(gone, old(state), KeysOf(conf))
      ensures state == Refreshed(old(state), KeysOf(conf), VisitsOf(order), gone)
      ensures Followed(old(peers), conf) && Undisturbed(old(peers))
      ensures KeepsObjects(old(peers))
    {
      order := UpdateAll(conf);
      StaysSound(old(state), KeysOf(conf), VisitsOf(order), []);
      gone := DropGone(conf);
      StaysSound(old(state), KeysOf(conf), VisitsOf(order), gone);
    }

    /** Every peer is an object that was there or a new one. */
    twostate predicate KeepsObjects(was: map<PeerId, VpnPeer>)
      reads this
    {
      forall id :: id in peers ==> peers[id] in was.Values || fresh(peers[id])
    }

    /** Known peers are still the same objects, all others are closed. */
    ghost predicate Followed(was: map<PeerId, VpnPeer>, conf: Conf)
      reads this, was.Values`closed
    {
      && (forall id :: id in peers ==> id in conf)
      && forall id :: id in was ==> if id in conf then id in peers && peers[id] == was[id] else was[id].closed
    }

    method RebindGateway()
      requires Linked() && Sound(state) && WellFormed() && !isClosed && (!clientEnabled ==> gateway == null)
      modifies `clientEnabled, `gatewayId, `gateway
      ensures Valid() && (clientEnabled <==> old(clientEnabled) && old(gatewayId) in peers)
      ensures gatewayId == if old(clientEnabled) && !clientEnabled then "" else old(gatewayId)
    {
      if clientEnabled {
        if gatewayId in peers {
          gateway := peers[gatewayId];
        } else {
          clientEnabled, gatewayId, gateway := false, "", null;
        }
      }
    }

    method RefreshExits(conf: Conf, ghost was: map<PeerId, VpnPeer>)
      requires Valid() && Followed(was, conf)
      modifies peers.Values`allowExit
      ensures Valid() && Followed(was, conf)
      ensures forall id :: id in peers ==> peers[id].allowExit == conf[id].allowExit
    {
      var left := conf.Keys;
      while left != {}
        invariant left <= conf.Keys
        invariant forall id :: id in peers && id !in left ==> peers[id].allowExit == conf[id].allowExit
      {
        var id :| id in left;
        if id in peers {
          peers[id].allowExit := conf[id].allowExit;
        }
        left := left - {id};
      }
    }

    method Settle(conf: Conf, ghost was: map<PeerId, VpnPeer>)
      requires Linked() && Sound(state) && WellFormed() && !isClosed && (!clientEnabled ==> gateway == null)
      requires Followed(was, conf)
      modifies this`clientEnabled, this`gatewayId, this`gateway, peers.Values`allowExit
      ensures Valid() && Followed(was, conf)
      ensures forall id :: id in peers ==> peers[id].allowExit == conf[id].allowExit
      ensures clientEnabled == (old(clientEnabled) && old(gatewayId) in peers)
      ensures clientEnabled ==> gatewayId == old(gatewayId)
    {
      RebindGateway();
      RefreshExits(conf, was);
    }

    /**
     RefreshPeersList, in some order the maps yielded.  The gateway stays bound exactly if its peer
     is still there.
     */
    method Refresh(conf: Conf) returns (ghost order: seq<PeerId>, ghost gone: seq<PeerId>)
      requires Valid() && !isClosed
      modifies this`peers, this`index, this`state, this`clientEnabled, this`gatewayId, this`gateway, peers.Values
      ensures Valid()
      ensures Enumerates(order, KeysOf(conf)) && Gone(gone, old(state), KeysOf(conf))
      ensures state == Refreshed(old(state), KeysOf(conf), VisitsOf(order), gone)
      ensures Followed(old(peers), conf) && KeepsObjects(old(peers))
      ensures forall id :: id in peers ==> peers[id].allowExit == conf[id].allowExit
      ensures clientEnabled == (old(clientEnabled) && old(gatewayId) in peers)
      ensures clientEnabled ==> gatewayId == old(gatewayId)
    {
      order, gone := Resync(conf);
      assert clientEnabled == old(clientEnabled) && gatewayId == old(gatewayId);
      Settle(conf, old(peers));
    }

    /** What a refresh leaves of a peer that is configured with a valid address: both its addresses are the configured ones. */
    lemma AddressesFollow(was: Index, conf: Conf, order: seq<PeerId>, gone: seq<PeerId>, id: PeerId)
      requires Valid() && Sound(was) && Enumerates(order, KeysOf(conf)) && Gone(gone, was, KeysOf(conf))
      requires state == Refreshed(was, KeysOf(conf), VisitsOf(order), gone) && id in conf && conf[id].ip4.Some?
      ensures id in peers && peers[id].ip4 == conf[id].ip4.value && (peers[id].ip6.Some? <==> conf[id].ip6.Some?)
      ensures conf[id].ip6.Some? ==> R.Canonical(peers[id].ip6.value) == R.Canonical(conf[id].ip6.value)
    {
      var known := KeysOf(conf);
      VisitsAre(order, known);
      RefreshSound(was, known, VisitsOf(order), gone);
      assert Own(state, Slot(id, false)) == Final(was, known, Slot(id, false));
      assert Own(state, Slot(id, true)) == Final(was, known, Slot(id, true));
    }

    method RefreshPeersList(conf: Conf) returns (ghost order: seq<PeerId>, ghost gone: seq<PeerId>)
      requires Valid()
      modifies this`peers, this`index, this`state, this`clientEnabled, this`gatewayId, this`gateway, peers.Values
      ensures Valid() && KeepsObjects(old(peers))
      ensures isClosed ==> unchanged(this)
      ensures !isClosed ==> Enumerates(order, KeysOf(conf)) && Gone(gone, old(state), KeysOf(conf))
      ensures !isClosed ==> state == Refreshed(old(state), KeysOf(conf), VisitsOf(order), gone) && Followed(old(peers), conf)
    {
      if isClosed {
        return [], [];
      }
      order, gone := Refresh(conf);
    }

    method Close()
      requires Valid()
      modifies this`isClosed, this`peers, this`index, this`state, peers.Values
      ensures Valid() && isClosed
      ensures forall id :: id in old(peers) ==> old(peers[id]).closed
    {
      isClosed := true;
      var gone := DropGone(map[]);
      assert peers == map[];
      assert index == map[];
    }

    // ---- The gateway -------------------------------------------------------------------------------

    method SetVPNGatewayPeer(id: PeerId, conf: Conf) returns (ok: bool)
      requires Valid()
      modifies `clientEnabled, `gatewayId, `gateway
      ensures Valid() && (ok <==> id in conf && conf[id].canBeGateway && id in peers)
      ensures if ok then clientEnabled && gatewayId == id && gateway == peers[id] else unchanged(this)
    {
      if id !in conf || !conf[id].canBeGateway || id !in peers {
        return false;
      }
      clientEnabled, gatewayId, gateway := true, id, peers[id];
      return true;
    }

    method ClearVPNGatewayPeer()
      requires Valid()
      modifies `clientEnabled, `gatewayId, `gateway
      ensures Valid() && !clientEnabled && gateway == null && gatewayId == ""
    {
      clientEnabled, gatewayId, gateway := false, "", null;
    }

    // ---- Sending -----------------------------------------------------------------------------------

    /** What classification reads of the tunnel. */
    ghost function Node(dns: Option<seq<byte>>): R.Node
      reads this, peers.Values`ip4, peers.Values`ip6, peers.Values`closed, peers.Values`allowExit
      requires Valid()
    {
      R.Node(
        map k | k in index :: index[k].id,
        map id | id in peers :: R.PeerInfo(peers[id].ip4, peers[id].ip6, peers[id].allowExit),
        subnet4, subnet6,
        if clientEnabled && !isClosed then Some(gatewayId) else None,
        serverEnabled, dns)
    }

    lemma NodeIsValid(dns: Option<seq<byte>>)
      requires Valid()
      ensures R.ValidNode(Node(dns))
    {
    }

    /** What of the tunnel the packet path goes by. */
    lemma NodeShows(dns: Option<seq<byte>>)
      requires Valid()
      ensures var n := Node(dns);
              && n.subnet4 == subnet4 && n.subnet6 == subnet6 && n.serverEnabled == serverEnabled && n.dnsIP == dns
              && n.index.Keys == index.Keys && n.peers.Keys == peers.Keys
              && (n.gateway.Some? <==> clientEnabled && !isClosed) && (n.gateway.Some? ==> n.gateway.value == gatewayId)
              && (forall k :: k in index ==> n.index[k] == index[k].id)
              && forall id :: id in peers ==>
                   n.peers[id].ip4 == peers[id].ip4 && n.peers[id].ip6 == peers[id].ip6 && n.peers[id].allowExit == peers[id].allowExit
    {
    }

    /** What a lookup finds. */
    lemma NodeLookup(dns: Option<seq<byte>>, k: Key)
      requires Valid()
      ensures k in Node(dns).index <==> k in index
      ensures k in index ==>
        && index[k].id in peers && peers[index[k].id] == index[k] && Node(dns).index[k] == index[k].id
        && Node(dns).peers[index[k].id].allowExit == index[k].allowExit
    {
    }

    predicate IsAwlSubnet(ip: seq<byte>, isIPv6: bool)
    {
      if isIPv6 then subnet6.Some? && R.Contains(subnet6.value, ip) else R.Contains(subnet4, ip)
    }

    /** Every open channel got what the decision says, and nothing else. */
    twostate predicate Queued(d: R.Decision, p: View, connected: set<PeerId>)
      reads this, peers.Values
    {
      peers == old(peers) && forall id :: id in peers ==> peers[id].outbound == QueueAfter(d, id, old(peers[id].outbound), p, connected)
    }

    /** Which way a packet goes; a peer it goes to is one of the tunnel's. */
    method Decide(p: View, dns: Option<seq<byte>>) returns (d: R.Decision)
      requires Valid() && !isClosed && (Ready(p) || R.Blank(p))
      ensures R.ValidNode(Node(dns)) && d == R.Route(Node(dns), p)
      ensures d.ToPeer? ==> d.peer in peers
    {
      NodeIsValid(dns);
      if !p.hasAddrs {
        return if clientEnabled && gateway != null then R.ToPeer(gateway.id, Forward) else R.Ignore;
      }
      var dst := R.Canonical(Dst(p));
      NodeLookup(dns, dst);
      if dns.Some? && dst == R.Canonical(dns.value) {
        return R.Intercept;
      }
      if dst in index {
        var to := index[dst];
        var returning := to.allowExit && serverEnabled && !IsAwlSubnet(Src(p), p.isIPv6);
        return R.ToPeer(to.id, if returning then Return else p.dir);
      }
      if !p.isIPv6 && (dst == R.BroadcastOf(subnet4) || dst == R.LIMITED_BROADCAST) {
        return R.Broadcast;
      }
      if clientEnabled && gateway != null && !R.NonRoutable(dst) && !IsAwlSubnet(Dst(p), p.isIPv6) {
        return R.ToPeer(gateway.id, Forward);
      }
      return R.Ignore;
    }

    /** Acting on the decision for one packet; `taken` says the packet now belongs to a channel. */
    method Dispatch(d: R.Decision, p: View, connected: set<PeerId>) returns (taken: bool)
      requires Valid() && (d.ToPeer? ==> d.peer in peers)
      modifies peers.Values`outbound
      ensures Valid() && Queued(d, p, connected)
      ensures taken <==> d.ToPeer? && |old(peers[d.peer].outbound)| < PACKET_HANDLERS_CHAN_CAP
      ensures taken ==> peers[d.peer].outbound == old(peers[d.peer].outbound) + [p.(dir := d.dir)]
      ensures forall id :: id in peers && !(taken && id == d.peer) && !(d == R.Broadcast && id in connected) ==>
        peers[id].outbound == old(peers[id].outbound)
      ensures d == R.Broadcast ==> forall id :: id in peers && id in connected && |old(peers[id].outbound)| < PACKET_HANDLERS_CHAN_CAP ==>
        peers[id].outbound == old(peers[id].outbound) + [p]
    {
      taken := false;
      match d
      case ToPeer(id, dir) => taken := SendTo(id, p, dir);
      case Broadcast => Flood(p, connected);
      case _ =>
    }

    method SendTo(id: PeerId, p: View, dir: Direction) returns (ok: bool)
      requires Valid() && id in peers
      modifies peers.Values`outbound
      ensures Valid() && Queued(R.ToPeer(id, dir), p, {})
      ensures ok <==> |old(peers[id].outbound)| < PACKET_HANDLERS_CHAN_CAP
    {
      ok := peers[id].Send(p.(dir := dir));
    }

    /** One packet of HandleReadPackets: after Close nothing is looked up and nothing sent. */
    method HandleReadPacket(p: View, dns: Option<seq<byte>>, connected: set<PeerId>) returns (d: R.Decision, taken: bool)
      requires Valid() && (Ready(p) || R.Blank(p))
      modifies peers.Values`outbound
      ensures Valid() && (taken <==> !isClosed && d.ToPeer? && d.peer in peers && |old(peers[d.peer].outbound)| < PACKET_HANDLERS_CHAN_CAP)
      ensures !isClosed ==> R.ValidNode(old(Node(dns))) && d == R.Route(old(Node(dns)), p) && Queued(d, p, connected)
    {
      if isClosed {
        return R.Ignore, false;
      }
      d := Decide(p, dns);
      assert Node(dns) == old(Node(dns));
      taken := Dispatch(d, p, connected);
    }

    /** A copy to every connected peer. */
    method Flood(p: View, connected: set<PeerId>)
      requires Valid()
      modifies peers.Values`outbound
      ensures Valid() && Queued(R.Broadcast, p, connected)
    {
      var left := peers.Keys;
      while left != {}
        invariant left <= peers.Keys
        invariant forall id :: id in left ==> peers[id].outbound == old(peers[id].outbound)
        invariant forall id :: id in peers && id !in left ==>
          peers[id].outbound == QueueAfter(R.Broadcast, id, old(peers[id].outbound), p, connected)
      {
        var id :| id in left;
        if id in connected {
          var sent := peers[id].Send(p);
        }
        left := left - {id};
      }
    }

    /** A packet from a stream: only a known peer has a channel to put it in. */
    method HandleStreamPacket(from: PeerId, p: View) returns (taken: bool)
      requires Valid()
      modifies peers.Values`inbound
      ensures Valid() && (taken <==> from in peers && |old(peers[from].inbound)| < PACKET_HANDLERS_CHAN_CAP)
      ensures taken ==> peers[from].inbound == old(peers[from].inbound) + [p]
      ensures forall id :: id in peers ==>
        peers[id].inbound == if id == from then Offer(old(peers[id].inbound), p) else old(peers[id].inbound)
    {
      if from !in peers {
        return false;
      }
      taken := peers[from].Receive(p);
    }
  }

  datatype Op =
    | Refresh(conf: Conf)
    | Bind(id: PeerId, conf: Conf)
    | Unbind
    | FromTun(p: View, dns: Option<seq<byte>>, connected: set<PeerId>)
    | FromStream(from: PeerId, p: View)
    | Close

  /** What an operation does to the index. */
  ghost predicate OpStep(f: Index, op: Op, g: Index) {
    match op
    case Refresh(conf) => g == f || exists order, gone :: Takes(f, Round(KeysOf(conf), order, gone), g)
    case Close => g.addrs == map[]
    case _ => g == f
  }

  /** A refresh has distinct addresses and hands none over. */
  ghost predicate CleanOp(f: Index, op: Op) {
    op.Refresh? ==> Clean(f, KeysOf(op.conf))
  }

  lemma OpKeepsComplete(f: Index, op: Op, g: Index)
    requires Sound(f) && Complete(f) && OpStep(f, op, g) && CleanOp(f, op)
    ensures Complete(g)
  {
    if op.Refresh? && g != f {
      var order, gone :| Takes(f, Round(KeysOf(op.conf), order, gone), g);
      CleanKeepsComplete(f, Round(KeysOf(op.conf), order, gone), g);
    }
  }

  /** `trace` lists the index between the operations. */
  ghost predicate IsTrace(trace: seq<Index>, ops: seq<Op>) {
    && |trace| == |ops| + 1
    && forall i {:trigger ops[i]} :: 0 <= i < |ops| ==> Sound(trace[i]) && OpStep(trace[i], ops[i], trace[i + 1])
  }

  /** If every refresh was clean, every peer is reachable at every point. */
  lemma {:induction false} TraceKeepsComplete(trace: seq<Index>, ops: seq<Op>, i: nat)
    requires IsTrace(trace, ops) && i < |trace| && Complete(trace[0]) && forall k :: 0 <= k < i ==> CleanOp(trace[k], ops[k])
    ensures Complete(trace[i])
  {
    if i > 0 {
      TraceKeepsComplete(trace, ops, i - 1);
      OpKeepsComplete(trace[i - 1], ops[i - 1], trace[i]);
    }
  }

  lemma TraceSnoc(trace: seq<Index>, ops: seq<Op>, op: Op, g: Index)
    requires IsTrace(trace, ops) && Sound(trace[|ops|]) && OpStep(trace[|ops|], op, g)
    ensures IsTrace(trace + [g], ops + [op])
  {
    var t, o := trace + [g], ops + [op];
    forall i | 0 <= i < |o| ensures Sound(t[i]) && OpStep(t[i], o[i], t[i + 1]) {
      if i < |ops| { assert o[i] == ops[i]; }
    }
  }

  /**
   Any sequence of refreshes, binds, sends and Close keeps the tunnel valid, so no channel is misused
   on the way, and takes the index from step to step as specified; while refreshes are clean, no peer
   of an index without gaps is ever lost.
   */
  method Run(t: Tunnel, ops: seq<Op>) returns (ghost trace: seq<Index>)
    requires t.Valid() && forall i :: 0 <= i < |ops| && ops[i].FromTun? ==> Ready(ops[i].p) || R.Blank(ops[i].p)
    modifies t, t.peers.Values
    ensures t.Valid() && IsTrace(trace, ops) && trace[0] == old(t.state) && trace[|ops|] == t.state
    ensures Complete(old(t.state)) && (forall k :: 0 <= k < |ops| ==> CleanOp(trace[k], ops[k])) ==> Complete(t.state)
  {
    trace := [t.state];
    for i := 0 to |ops|
      invariant t.Valid() && forall id :: id in t.peers ==> t.peers[id] in old(t.peers.Values) || fresh(t.peers[id])
      invariant IsTrace(trace, ops[..i]) && trace[0] == old(t.state) && trace[i] == t.state
    {
      Perform(t, ops[i]);
      TraceSnoc(trace, ops[..i], ops[i], t.state);
      trace := trace + [t.state];
      assert ops[..i + 1] == ops[..i] + [ops[i]];
    }
    assert ops[..|ops|] == ops;
    if Complete(old(t.state)) && forall k :: 0 <= k < |ops| ==> CleanOp(trace[k], ops[k]) {
      TraceKeepsComplete(trace, ops, |ops|);
    }
  }

  method Perform(t: Tunnel, op: Op)
    requires t.Valid() && (op.FromTun? ==> Ready(op.p) || R.Blank(op.p))
    modifies t, t.peers.Values
    ensures t.Valid() && t.KeepsObjects(old(t.peers)) && OpStep(old(t.state), op, t.state)
  {
    match op
    case Refresh(conf) =>
      var order, gone := t.RefreshPeersList(conf);
      assert t.isClosed || Takes(old(t.state), Round(KeysOf(conf), order, gone), t.state);
    case Bind(id, conf) => var ok := t.SetVPNGatewayPeer(id, conf);
    case Unbind => t.ClearVPNGatewayPeer();
    case FromTun(p, dns, connected) => var d, taken := t.HandleReadPacket(p, dns, connected);
    case FromStream(from, p) => var taken := t.HandleStreamPacket(from, p);
    case Close => t.Close();
  }
}

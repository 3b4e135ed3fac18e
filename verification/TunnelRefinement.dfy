/**
 The tunnel as gateway mode sees it: who has a channel and who is bound.  The binding and the refresh
 of the tunnel object do to these what the gateway's own account of them says.
 */
module TunnelRefinement {
  import opened PeerIndex
  import opened TunnelState
  import O = Orchestration
  import R = Routing

  function InfoOf(conf: Conf): map<PeerId, O.PeerInfo> {
    map id | id in conf :: O.PeerInfo(conf[id].canBeGateway, conf[id].ip4.Some?)
  }

  ghost predicate Shows(g: O.Gateway, t: Tunnel, conf: Conf)
    reads g, t
  {
    && g.known == InfoOf(conf) && g.tunnelPeers == t.peers.Keys
    && g.tunnelClient == t.clientEnabled && (t.clientEnabled ==> g.tunnelGateway == t.gatewayId)
  }

  /** Both accept or refuse a gateway alike. */
  method Bind(g: O.Gateway, t: Tunnel, conf: Conf, id: PeerId) returns (ok: bool)
    requires t.Valid() && Shows(g, t, conf)
    modifies g`tunnelClient, g`tunnelGateway, g`confClient, g`confGateway, t`clientEnabled, t`gatewayId, t`gateway
    ensures t.Valid() && Shows(g, t, conf)
    ensures ok ==> g.tunnelGateway == id == t.gatewayId
    ensures !ok ==> unchanged(g) && unchanged(t)
  {
    ok := t.SetVPNGatewayPeer(id, conf);
    var agreed := g.SetVPNGatewayPeer(id);
    assert ok == agreed;
  }

  method Unbind(g: O.Gateway, t: Tunnel, conf: Conf)
    requires t.Valid() && Shows(g, t, conf)
    modifies g`tunnelClient, g`tunnelGateway, g`confClient, g`confGateway, t`clientEnabled, t`gatewayId, t`gateway
    ensures t.Valid() && Shows(g, t, conf) && !t.clientEnabled
  {
    g.ClearVPNGatewayPeer();
    t.ClearVPNGatewayPeer();
  }

  /** The peer has the configured addresses. */
  ghost predicate HasAddressesOf(peer: VpnPeer, c: ConfPeer)
    reads peer
    requires c.ip4.Some?
  {
    && peer.ip4 == c.ip4.value && (peer.ip6.Some? <==> c.ip6.Some?)
    && (c.ip6.Some? ==> R.Canonical(peer.ip6.value) == R.Canonical(c.ip6.value))
  }

  /** Whose channels the tunnel has after a refresh, and whether its gateway is still bound. */
  method RefreshTunnel(t: Tunnel, conf: Conf)
    requires t.Valid() && !t.isClosed
    modifies t`peers, t`index, t`state, t`clientEnabled, t`gatewayId, t`gateway, t.peers.Values
    ensures t.Valid()
    ensures t.peers.Keys == set id | id in conf && (conf[id].ip4.Some? || id in old(t.peers))
    ensures t.clientEnabled == (old(t.clientEnabled) && old(t.gatewayId) in t.peers)
    ensures t.clientEnabled ==> t.gatewayId == old(t.gatewayId)
    ensures forall id :: id in t.peers ==> t.peers[id].allowExit == conf[id].allowExit
    ensures forall id :: id in conf && conf[id].ip4.Some? ==> HasAddressesOf(t.peers[id], conf[id])
  {
    ghost var was := t.state;
    ghost var order, gone := t.Refresh(conf);
    forall id | id in conf && conf[id].ip4.Some? ensures id in t.peers && HasAddressesOf(t.peers[id], conf[id]) {
      t.AddressesFollow(was, conf, order, gone, id);
    }
    forall id ensures id in t.peers <==> id in conf && (conf[id].ip4.Some? || id in old(t.peers)) {
      RefreshedPeers(was, KeysOf(conf), order, gone, id);
    }
  }

  /** A refresh leaves both with the same peers and the same binding. */
  method Refresh(g: O.Gateway, t: Tunnel, conf: Conf)
    requires t.Valid() && !t.isClosed && Shows(g, t, conf)
    modifies g`tunnelPeers, g`tunnelClient, g`tunnelGateway
    modifies t`peers, t`index, t`state, t`clientEnabled, t`gatewayId, t`gateway, t.peers.Values
    ensures t.Valid() && Shows(g, t, conf)
  {
    g.RefreshTunnel();
    RefreshTunnel(t, conf);
  }
}

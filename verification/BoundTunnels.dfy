/** Two tunnel objects as the ends of the gateway round trip. */
module BoundTunnels {
  import opened Wrappers
  import opened Bytes
  import opened PeerIndex
  import opened TunnelState
  import R = Routing
  import G = GatewayRoundTrip

  /** A complete index leads from the address of every peer to that peer. */
  lemma FoundUnderItsAddress(t: Tunnel, dns: Option<seq<byte>>, id: PeerId, isIPv6: bool)
    requires t.Valid() && Complete(t.state) && id in t.peers && (isIPv6 ==> t.peers[id].ip6.Some?)
    ensures R.ValidNode(t.Node(dns)) && R.SenderIP(t.Node(dns), id, isIPv6).Some?
    ensures var at := R.Canonical(R.SenderIP(t.Node(dns), id, isIPv6).value);
            at in t.Node(dns).index && t.Node(dns).index[at] == id
  {
    t.NodeIsValid(dns);
    var s := Slot(id, isIPv6);
    assert Reached(t.state, s);
    t.NodeLookup(dns, Own(t.state, s).value);
  }

  /**
   A client bound to its gateway and a serving exit that permits the client are a bound pair whenever
   the exit's index is complete and its DNS address is not the client's.
   */
  lemma TunnelsAreBound(client: Tunnel, dnsAtClient: Option<seq<byte>>, clientId: PeerId,
                        exit: Tunnel, dnsAtExit: Option<seq<byte>>, exitId: PeerId, isIPv6: bool)
    requires client.Valid() && !client.isClosed && client.clientEnabled && client.gatewayId == exitId
    requires exit.Valid() && Complete(exit.state) && exit.serverEnabled
    requires clientId in exit.peers && exit.peers[clientId].allowExit
    requires isIPv6 ==> client.subnet6.Some? && exit.subnet6.Some? && exit.peers[clientId].ip6.Some?
    requires dnsAtExit.Some? ==>
      R.Canonical(dnsAtExit.value) != if isIPv6 then R.Canonical(exit.peers[clientId].ip6.value) else exit.peers[clientId].ip4
    ensures G.BoundPair(client.Node(dnsAtClient), clientId, exit.Node(dnsAtExit), exitId, isIPv6)
  {
    client.NodeIsValid(dnsAtClient);
    FoundUnderItsAddress(exit, dnsAtExit, clientId, isIPv6);
  }
}

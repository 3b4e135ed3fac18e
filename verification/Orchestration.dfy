/**
 Gateway mode as a whole (service/vpn_gateway.go, with the tunnel binding of service/tunnel.go, the
 DNS switch of application.go and peer removal of api/peers.go): the configuration, the tunnel, the
 routes, the NAT and the resolver change together, one API call after another.
 */
module Orchestration {
  type PeerId = string

  /** What the configuration says of a peer. */
  datatype PeerInfo = PeerInfo(canBeGateway: bool, validAddress: bool)

  /** Calls of the API and the events that follow them; the flags say which system calls work. */
  datatype Op =
    | EnableClient(id: PeerId, nameWorks: bool, routesWork: bool)
    | DisableClient
    | SetServer(enabled: bool, nameWorks: bool, natWorks: bool)
    | PutPeer(id: PeerId, info: PeerInfo)
    | RemovePeer(id: PeerId)
    | RefreshTunnel

  class Gateway {
    const clientSupported: bool
    const serverSupported: bool
    const awlIsSystemResolver: bool

    // configuration
    var known: map<PeerId, PeerInfo>
    var confClient: bool
    var confGateway: PeerId
    var confServer: bool
    // tunnel
    var tunnelPeers: set<PeerId>
    var tunnelClient: bool
    var tunnelGateway: PeerId
    var tunnelServer: bool
    // system
    var routes: bool
    var natOn: bool
    var dnsForced: bool

    /** Everything agrees on whether, and through whom, traffic leaves; the gateway is a known peer with a channel. */
    ghost predicate ClientAgrees()
      reads this
    {
      && (routes <==> confClient) && (tunnelClient <==> confClient) && tunnelGateway == confGateway
      && (if confClient then confGateway in known && confGateway in tunnelPeers && confGateway != "" else confGateway == "")
      && (awlIsSystemResolver ==> (dnsForced <==> routes))
    }

    ghost predicate ServerAgrees()
      reads this
    {
      (natOn <==> confServer) && (tunnelServer <==> confServer)
    }

    ghost predicate Valid()
      reads this
    {
      ClientAgrees() && ServerAgrees() && "" !in known && "" !in tunnelPeers
    }

    /** A node that starts with both modes off. */
    constructor (clientSupported: bool, serverSupported: bool, awlIsSystemResolver: bool, known: map<PeerId, PeerInfo>)
      requires "" !in known
      ensures Valid() && !confClient && !confServer && this.known == known
      ensures tunnelPeers == set id | id in known && known[id].validAddress
    {
      this.clientSupported, this.serverSupported, this.awlIsSystemResolver := clientSupported, serverSupported, awlIsSystemResolver;
      this.known, tunnelPeers := known, set id | id in known && known[id].validAddress;
      confClient, confGateway, confServer := false, "", false;
      tunnelClient, tunnelGateway, tunnelServer := false, "", false;
      routes, natOn, dnsForced := false, false, false;
    }

    // ---- The tunnel's part -------------------------------------------------------------------------

    method SetVPNGatewayPeer(id: PeerId) returns (ok: bool)
      modifies `tunnelClient, `tunnelGateway, `confClient, `confGateway
      ensures ok <==> id in known && known[id].canBeGateway && id in tunnelPeers
      ensures ok ==> tunnelClient && confClient && tunnelGateway == id == confGateway
      ensures !ok ==> unchanged(this)
    {
      if id !in known || !known[id].canBeGateway || id !in tunnelPeers {
        return false;
      }
      tunnelClient, tunnelGateway := true, id;
      confClient, confGateway := true, id;
      return true;
    }

    method ClearVPNGatewayPeer()
      modifies `tunnelClient, `tunnelGateway, `confClient, `confGateway
      ensures !tunnelClient && !confClient && tunnelGateway == confGateway == ""
    {
      tunnelClient, tunnelGateway := false, "";
      confClient, confGateway := false, "";
    }

    /** The tunnel follows the configuration; a gateway that is gone is unbound on the tunnel's side only. */
    method RefreshTunnel()
      modifies `tunnelPeers, `tunnelClient, `tunnelGateway
      ensures forall id :: id in tunnelPeers <==> id in known && (known[id].validAddress || id in old(tunnelPeers))
      ensures old(tunnelClient) && old(tunnelGateway) !in tunnelPeers ==> !tunnelClient && tunnelGateway == ""
      ensures !old(tunnelClient) || old(tunnelGateway) in tunnelPeers ==>
        tunnelClient == old(tunnelClient) && tunnelGateway == old(tunnelGateway)
    {
      tunnelPeers := set id | id in known && (known[id].validAddress || id in tunnelPeers);
      if tunnelClient && tunnelGateway !in tunnelPeers {
        tunnelClient, tunnelGateway := false, "";
      }
    }

    // ---- The resolver ------------------------------------------------------------------------------

    method ForceUpstreamDNS(enabled: bool)
      modifies `dnsForced
      ensures dnsForced == if awlIsSystemResolver then enabled else old(dnsForced)
    {
      if !awlIsSystemResolver || dnsForced == enabled {
        return;
      }
      dnsForced := enabled;
    }

    // ---- Client mode -------------------------------------------------------------------------------

    method ApplyClient(nameWorks: bool, routesWork: bool) returns (ok: bool)
      modifies `routes, `dnsForced
      ensures ok <==> clientSupported && confGateway != "" && (old(routes) || (nameWorks && routesWork))
      ensures routes == (old(routes) || ok)
      ensures dnsForced == if ok && !old(routes) && awlIsSystemResolver then true else old(dnsForced)
    {
      if !clientSupported || confGateway == "" {
        return false;
      }
      if routes {
        return true;
      }
      if !nameWorks || !routesWork {
        return false;
      }
      routes := true;
      ForceUpstreamDNS(true);
      return true;
    }

    method TeardownClient()
      modifies `routes, `dnsForced
      ensures !routes
      ensures dnsForced == if old(routes) && awlIsSystemResolver then false else old(dnsForced)
    {
      if routes {
        routes := false;
        ForceUpstreamDNS(false);
      }
    }

    /**
     EnableClient succeeds exactly when the peer may be the gateway and, unless routes are up already,
     the routes can be installed.  When it fails, also as a switch, nothing has changed.
     */
    method EnableClient(id: PeerId, nameWorks: bool, routesWork: bool) returns (ok: bool)
      requires Valid()
      modifies this
      ensures Valid()
      ensures ok <==> clientSupported && id in known && known[id].canBeGateway && id in old(tunnelPeers)
                      && (old(routes) || (nameWorks && routesWork))
      ensures ok ==> routes && confGateway == id
      ensures !ok ==> unchanged(this)
      ensures unchanged(`known) && unchanged(`tunnelPeers) && unchanged(`natOn) && unchanged(`confServer)
    {
      if !clientSupported {
        return false;
      }
      var bound := SetVPNGatewayPeer(id);
      if !bound {
        return false;
      }
      ok := ApplyClient(nameWorks, routesWork);
      if !ok {
        ClearVPNGatewayPeer();
      }
    }

    method DisableClient()
      requires Valid()
      modifies this
      ensures Valid() && !routes && confGateway == ""
      ensures unchanged(`known) && unchanged(`tunnelPeers) && unchanged(`natOn) && unchanged(`confServer)
    {
      TeardownClient();
      ClearVPNGatewayPeer();
    }

    // ---- Server mode -------------------------------------------------------------------------------

    method SetServerEnabled(enabled: bool, nameWorks: bool, natWorks: bool) returns (ok: bool)
      requires Valid()
      modifies `confServer, `tunnelServer, `natOn
      ensures Valid() && (ok <==> !enabled || (serverSupported && (old(natOn) || (nameWorks && natWorks))))
      ensures if ok then natOn == enabled else unchanged(this)
    {
      if enabled {
        if !serverSupported {
          return false;
        }
        if !natOn {
          if !nameWorks || !natWorks {
            return false;
          }
          natOn := true;
        }
        tunnelServer, confServer := true, true;
        return true;
      }
      tunnelServer, confServer := false, false;
      natOn := false;
      return true;
    }

    // ---- Peers -------------------------------------------------------------------------------------

    method PutPeer(id: PeerId, info: PeerInfo)
      requires Valid() && id != ""
      modifies `known
      ensures Valid() && known == old(known)[id := info]
    {
      known := known[id := info];
    }

    /** The active gateway is not removed. */
    method RemovePeer(id: PeerId) returns (ok: bool)
      requires Valid()
      modifies `known
      ensures Valid() && (ok <==> id in old(known) && !(routes && confGateway == id))
      ensures known == if ok then old(known) - {id} else old(known)
    {
      if confClient && confGateway == id {
        return false;
      }
      ok := id in known;
      known := known - {id};
    }

    /** After a guarded removal the refresh leaves the binding alone. */
    method Refresh()
      requires Valid()
      modifies `tunnelPeers, `tunnelClient, `tunnelGateway
      ensures Valid() && tunnelClient == old(tunnelClient) && tunnelGateway == old(tunnelGateway)
    {
      RefreshTunnel();
    }

    /** Why removal is guarded: a refresh without the gateway's peer leaves routes up with nothing bound. */
    method UnguardedRemoval(id: PeerId)
      requires Valid() && routes && id == confGateway
      modifies this
      ensures routes && confClient && !tunnelClient && !Valid()
    {
      known := known - {id};
      RefreshTunnel();
    }
  }

  /** Any sequence of calls, with any failures, leaves everything in agreement. */
  method Run(g: Gateway, ops: seq<Op>)
    requires g.Valid() && forall i :: 0 <= i < |ops| && ops[i].PutPeer? ==> ops[i].id != ""
    modifies g
    ensures g.Valid()
  {
    for i := 0 to |ops|
      invariant g.Valid()
    {
      match ops[i]
      case EnableClient(id, nameWorks, routesWork) => var _ := g.EnableClient(id, nameWorks, routesWork);
      case DisableClient => g.DisableClient();
      case SetServer(enabled, nameWorks, natWorks) => var _ := g.SetServerEnabled(enabled, nameWorks, natWorks);
      case PutPeer(id, info) => g.PutPeer(id, info);
      case RemovePeer(id) => var _ := g.RemovePeer(id);
      case RefreshTunnel => g.Refresh();
    }
  }
}

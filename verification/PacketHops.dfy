/**
 Which way a packet goes and what the receiver makes of it, in terms of the node's fields and the
 bytes of the packet: one hop between two peers, and each direction tag on its own.
 */
module PacketHops {
  import opened Wrappers
  import opened Bytes
  import opened PacketView
  import opened PacketTheorems
  import opened Routing
  import opened GatewayRoundTrip
  import PacketPlaces
  import Framing
  import M = Masks
  import A = Addresses

  // ---- Addresses as bytes ----------------------------------------------------------------------------

  function SrcBytes(v: View): seq<byte>
    requires Ready(v)
  {
    if v.isIPv6 then v.body[8..24] else v.body[12..16]
  }

  function DstBytes(v: View): seq<byte>
    requires Ready(v)
  {
    if v.isIPv6 then v.body[24..40] else v.body[16..20]
  }

  lemma BytesAre(v: View)
    requires Ready(v)
    ensures Src(v) == SrcBytes(v) && Dst(v) == DstBytes(v)
  {
  }

  /** An address reads the same in its IPv4-mapped form, and every other one stands for itself. */
  lemma CanonicalForm(ip: seq<byte>)
    ensures |ip| == 16 && ip[..12] == [0, 0, 0, 0, 0, 0, 0, 0, 0, 0, 0xff, 0xff] ==> Canonical(ip) == ip[12..]
    ensures |ip| != 16 || ip[..12] != [0, 0, 0, 0, 0, 0, 0, 0, 0, 0, 0xff, 0xff] ==> Canonical(ip) == ip
  {
    if |ip| == 16 {
      forall i | 0 <= i < 12 ensures ip[..12][i] == ip[i] {}
    }
  }

  // ---- What the receiver writes ------------------------------------------------------------------------

  /** What a parsed packet satisfies. */
  predicate Fresh(p: View) {
    Ready(p) && if p.isIPv6 then RemembersCurrent(p) else IsIPv4(p.body)
  }

  /** This node has an address in the packet's family. */
  predicate HasOwn(n: Node, isIPv6: bool) { isIPv6 ==> n.subnet6.Some? }

  /** So has the sender, here. */
  predicate HasSender(n: Node, sender: PeerId, isIPv6: bool)
    requires sender in n.peers
  {
    isIPv6 ==> n.peers[sender].ip6.Some?
  }

  function OwnBytes(n: Node, isIPv6: bool): seq<byte>
    requires HasOwn(n, isIPv6)
  {
    if isIPv6 then n.subnet6.value.ip else n.subnet4.ip
  }

  function SenderBytes(n: Node, sender: PeerId, isIPv6: bool): seq<byte>
    requires sender in n.peers && HasSender(n, sender, isIPv6)
  {
    if isIPv6 then n.peers[sender].ip6.value else n.peers[sender].ip4
  }

  /** The packet is written as `r`: repaired, between these addresses, otherwise the same bytes. */
  ghost predicate WrittenAs(p: View, r: Option<View>, src: seq<byte>, dst: seq<byte>)
    requires Ready(p)
  {
    r.Some? && RepairedFrom(p, r.value) && SrcBytes(r.value) == src && DstBytes(r.value) == dst
  }

  /** A packet between peers: from the sender's address here to this node's own, whenever both exist. */
  lemma PeerPacket(n: Node, sender: PeerId, p: View)
    requires ValidNode(n) && sender in n.peers && Fresh(p) && p.dir == Peer
    ensures if HasOwn(n, p.isIPv6) && HasSender(n, sender, p.isIPv6)
            then WrittenAs(p, Inbound(n, sender, p), SenderBytes(n, sender, p.isIPv6), OwnBytes(n, p.isIPv6))
            else Inbound(n, sender, p).None?
  {
    WrittenPlaces(n, sender, p);
  }

  /** A forwarded packet: from the sender's address here to where it was going, for a permitted peer of a serving node. */
  lemma ForwardPacket(n: Node, sender: PeerId, p: View)
    requires ValidNode(n) && sender in n.peers && Fresh(p) && p.dir == Forward
    ensures if n.serverEnabled && n.peers[sender].allowExit && HasOwn(n, p.isIPv6) && HasSender(n, sender, p.isIPv6)
            then WrittenAs(p, Inbound(n, sender, p), SenderBytes(n, sender, p.isIPv6), DstBytes(p))
            else Inbound(n, sender, p).None?
  {
    WrittenPlaces(n, sender, p);
  }

  /** A returned packet: from where it came to this node's own address, if the sender is its gateway. */
  lemma ReturnPacket(n: Node, sender: PeerId, p: View)
    requires ValidNode(n) && sender in n.peers && Fresh(p) && p.dir == Return
    ensures if n.gateway == Some(sender) && HasOwn(n, p.isIPv6)
            then WrittenAs(p, Inbound(n, sender, p), SrcBytes(p), OwnBytes(n, p.isIPv6))
            else Inbound(n, sender, p).None?
  {
    WrittenPlaces(n, sender, p);
  }

  lemma WrittenPlaces(n: Node, sender: PeerId, p: View)
    requires ValidNode(n) && sender in n.peers && Fresh(p)
    ensures var plan := AddressPlan(n, sender, p.dir, p.isIPv6);
            if plan.None? then Inbound(n, sender, p).None?
            else WrittenAs(p, Inbound(n, sender, p), if plan.value.src.Some? then plan.value.src.value else SrcBytes(p),
                           if plan.value.dst.Some? then plan.value.dst.value else DstBytes(p))
  {
    if AddressPlan(n, sender, p.dir, p.isIPv6).Some? {
      InboundRepairs(n, sender, p);
      BytesAre(p);
      BytesAre(Inbound(n, sender, p).value);
    }
  }

  // ---- Where the sender sends it ----------------------------------------------------------------------

  predicate ForDns(n: Node, dst: seq<byte>) { n.dnsIP.Some? && Canonical(dst) == Canonical(n.dnsIP.value) }

  /** The in-tunnel DNS server comes before everything else, and gets nothing else. */
  lemma InterceptedIff(n: Node, p: View)
    requires ValidNode(n) && Ready(p)
    ensures Classify(n, p) == Intercept <==> ForDns(n, DstBytes(p))
  {
    BytesAre(p);
  }

  /** The source is not one of the node's awl addresses. */
  predicate FromOutside(n: Node, p: View)
    requires Ready(p)
  {
    if p.isIPv6 then n.subnet6.None? || !Contains(n.subnet6.value, SrcBytes(p)) else !Contains(n.subnet4, SrcBytes(p))
  }

  /**
   Next come the peers: the one under that address gets the packet, tagged as a return exactly if the
   node serves it and the packet came from outside, and otherwise with the tag it has.
   */
  lemma ToPeerOfAddress(n: Node, p: View)
    requires ValidNode(n) && Ready(p) && !ForDns(n, DstBytes(p)) && Canonical(DstBytes(p)) in n.index
    ensures var peer := n.index[Canonical(DstBytes(p))];
            Classify(n, p) ==
            ToPeer(peer, if n.serverEnabled && n.peers[peer].allowExit && FromOutside(n, p) then Return else p.dir)
  {
    BytesAre(p);
  }

  /** The last address of the IPv4 subnet as a number, or 255.255.255.255. */
  predicate IsBroadcast(n: Node, p: View)
    requires ValidNode(n) && Ready(p) && n.subnet4.bits <= 32
  {
    !p.isIPv6 && (M.IsTop(M.Number(DstBytes(p)), M.Number(n.subnet4.ip), A.Pow2(32 - n.subnet4.bits))
                  || M.Number(DstBytes(p)) == 0xffff_ffff)
  }

  lemma BroadcastIff(n: Node, p: View)
    requires ValidNode(n) && Ready(p) && n.subnet4.bits <= 32
    ensures Classify(n, p) == Broadcast <==>
      !ForDns(n, DstBytes(p)) && Canonical(DstBytes(p)) !in n.index && IsBroadcast(n, p)
  {
    BytesAre(p);
    if !p.isIPv6 {
      BroadcastNumber(n.subnet4, DstBytes(p));
      LimitedIs();
      SameNumber(DstBytes(p), LIMITED_BROADCAST);
    }
  }

  lemma BroadcastNumber(net: Subnet, dst: seq<byte>)
    requires |net.ip| == 4 && net.bits <= 32 && |dst| == 4
    ensures dst == BroadcastOf(net) <==> M.IsTop(M.Number(dst), M.Number(net.ip), A.Pow2(32 - net.bits))
  {
    M.BroadcastIs(net);
    M.BroadcastIsBytes(net);
    SameNumber(dst, BroadcastOf(net));
  }

  lemma LimitedIs()
    ensures M.Number(LIMITED_BROADCAST) == 0xffff_ffff
  {
    var b := LIMITED_BROADCAST;
    assert b[..3][..2] == b[..2] && b[..2][..1] == b[..1] && b[..1][..0] == [];
    assert M.Number(b[..1]) == 255;
    assert M.Number(b[..2]) == 0xffff;
    assert M.Number(b[..3]) == 0xff_ffff;
  }

  lemma SameNumber(s: seq<byte>, t: seq<int>)
    requires |s| == |t| && forall i :: 0 <= i < |t| ==> 0 <= t[i] < 0x100
    ensures M.Number(s) == M.Number(t) <==> s == t
  {
    var u: seq<byte> := t;
    M.NumberInjective(s, u);
  }

  /** Loopback, link-local and multicast, by their bytes. */
  predicate NoInternet(dst: seq<byte>) {
    var c := Canonical(dst);
    if |c| == 4 then c[0] == 127 || (c[0] == 169 && c[1] == 254) || 224 <= c[0] <= 239
    else |c| == 16 && (c[0] == 0xff || (c[0] == 0xfe && 0x80 <= c[1] <= 0xbf) || M.Number(c) == 1)
  }

  /** The destination is an awl address. */
  predicate ToAwl(n: Node, p: View)
    requires Ready(p)
  {
    if p.isIPv6 then n.subnet6.Some? && Contains(n.subnet6.value, DstBytes(p)) else Contains(n.subnet4, DstBytes(p))
  }

  /** Everything else goes to the gateway, if there is one and the destination is on the internet, or nowhere. */
  lemma ElsewhereIff(n: Node, p: View)
    requires ValidNode(n) && Ready(p) && n.subnet4.bits <= 32
    requires !ForDns(n, DstBytes(p)) && Canonical(DstBytes(p)) !in n.index && !IsBroadcast(n, p)
    ensures Classify(n, p) ==
            if n.gateway.Some? && !NoInternet(DstBytes(p)) && !ToAwl(n, p) then ToPeer(n.gateway.value, Forward) else Ignore
  {
    BytesAre(p);
    BroadcastIff(n, p);
    NoInternetIs(DstBytes(p));
  }

  lemma NoInternetIs(dst: seq<byte>)
    ensures NonRoutable(Canonical(dst)) <==> NoInternet(dst)
  {
    var c := Canonical(dst);
    CanonicalTwice(dst);
    if |c| == 16 {
      OneIs(c);
    }
  }

  lemma CanonicalTwice(ip: seq<byte>)
    ensures Canonical(Canonical(ip)) == Canonical(ip)
  {
  }

  lemma OneIs(c: seq<byte>)
    requires |c| == 16
    ensures M.Number(c) == 1 <==> c[15] == 1 && forall i :: 0 <= i < 15 ==> c[i] == 0
  {
    ZeroIs(c[..15]);
  }

  lemma {:induction false} ZeroIs(s: seq<byte>)
    ensures M.Number(s) == 0 <==> forall i :: 0 <= i < |s| ==> s[i] == 0
  {
    if s != [] {
      ZeroIs(s[..|s| - 1]);
    }
  }

  /** A read of no bytes goes to the gateway too, if there is one. */
  lemma BlankGoesToGateway(n: Node, p: View)
    requires ValidNode(n) && Blank(p)
    ensures Route(n, p) == if n.gateway.Some? then ToPeer(n.gateway.value, Forward) else Ignore
  {
  }

  // ---- A hop between peers -----------------------------------------------------------------------------

  /** `at` is where `from` finds `toId`, and not the DNS server's; the packet is not to be returned to a client. */
  predicate Addressed(from: Node, toId: PeerId, p: View)
    requires ValidNode(from) && Ready(p)
  {
    var at := Canonical(DstBytes(p));
    && !ForDns(from, DstBytes(p)) && at in from.index && from.index[at] == toId
    && !(from.serverEnabled && from.peers[toId].allowExit && FromOutside(from, p))
  }

  /** The packet goes to `toId` alone, whose TUN gets it once, between these addresses, repaired and otherwise the same bytes. */
  ghost predicate Arrives(from: Node, fromId: PeerId, to: Node, toId: PeerId, body: seq<byte>, eof: bool, src: seq<byte>, dst: seq<byte>) {
    && ValidNode(from) && ValidNode(to) && fromId in to.peers && |body| <= MAX_PACKET_BODY && Received(body, Peer).Some?
    && Sent(from, body).Some? && Sent(from, body).value.0 == toId
    && var out := Written(to, fromId, Sent(from, body).value.1, eof);
       && |out| == 1 && RepairedFrom(Received(body, Peer).value, out[0])
       && SrcBytes(out[0]) == src && DstBytes(out[0]) == dst
  }

  /** A parsed packet that fits a frame. */
  predicate Fits(body: seq<byte>) { Received(body, Peer).Some? && |body| < MAX_PACKET_BODY && Ready(Received(body, Peer).value) }

  /**
   A packet one node's kernel sends to a peer's address arrives at that peer: from the sender's
   address there to the peer's own.
   */
  lemma PeerHop(from: Node, fromId: PeerId, to: Node, toId: PeerId, body: seq<byte>, eof: bool)
    requires ValidNode(from) && ValidNode(to) && fromId in to.peers && Fits(body)
    requires var p := Received(body, Peer).value;
             Addressed(from, toId, p) && HasOwn(to, p.isIPv6) && HasSender(to, fromId, p.isIPv6)
    ensures var v6 := Received(body, Peer).value.isIPv6;
            Arrives(from, fromId, to, toId, body, eof, SenderBytes(to, fromId, v6), OwnBytes(to, v6))
  {
    var p := Received(body, Peer).value;
    ReceivedIsReady(body, Peer);
    ToPeerOfAddress(from, p);
    SentTo(from, body, toId, Peer);
    OneFrameWritten(to, fromId, body, Peer, eof);
    PeerPacket(to, fromId, p);
  }

  /** Both nodes know each other in this family. */
  predicate Acquainted(a: Node, aId: PeerId, b: Node, bId: PeerId, isIPv6: bool) {
    && ValidNode(a) && ValidNode(b) && aId in b.peers && bId in a.peers
    && HasOwn(a, isIPv6) && HasOwn(b, isIPv6) && HasSender(a, bId, isIPv6) && HasSender(b, aId, isIPv6)
  }

  /**
   There and back: the answer to what arrived, sent to the address it came from, returns as if the
   address first asked had answered.
   */
  lemma PeerRoundTrip(a: Node, aId: PeerId, b: Node, bId: PeerId, request: seq<byte>, reply: seq<byte>, eofThere: bool, eofBack: bool)
    requires Fits(request) && Fits(reply)
    requires var p, q := Received(request, Peer).value, Received(reply, Peer).value;
             && p.isIPv6 == q.isIPv6 && Acquainted(a, aId, b, bId, p.isIPv6)
             && Addressed(a, bId, p) && DstBytes(p) == SenderBytes(a, bId, p.isIPv6)
             && Addressed(b, aId, q) && DstBytes(q) == SenderBytes(b, aId, p.isIPv6) && SrcBytes(q) == OwnBytes(b, p.isIPv6)
    ensures var p, q := Received(request, Peer).value, Received(reply, Peer).value;
            && Arrives(a, aId, b, bId, request, eofThere, DstBytes(q), SrcBytes(q))
            && Arrives(b, bId, a, aId, reply, eofBack, DstBytes(p), OwnBytes(a, p.isIPv6))
  {
    PeerHop(a, aId, b, bId, request, eofThere);
    PeerHop(b, bId, a, aId, reply, eofBack);
  }
}

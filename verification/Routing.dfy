/**
 Where a packet goes: classification of packets read from the TUN (HandleReadPackets of
 service/tunnel.go) and the rewriting of packets received from a peer (writeInboundBatch).
 */
module Routing {
  import opened Wrappers
  import opened Bytes
  import opened Checksum
  import opened PacketView
  import Addresses

  type PeerId = string

  /** The form under which net.IP compares and prints: an IPv4-mapped address is its IPv4 address. */
  function Canonical(ip: seq<byte>): (c: seq<byte>)
    ensures |ip| == 4 ==> c == ip
  {
    if |ip| == 16 && (forall i :: 0 <= i < 10 ==> ip[i] == 0) && ip[10] == 0xff && ip[11] == 0xff then ip[12..] else ip
  }

  /** An address with the prefix length of its network. */
  datatype Subnet = Subnet(ip: seq<byte>, bits: nat)

  /** How many of the bits of byte `i` belong to a prefix of length `bits`. */
  function BitsIn(bits: nat, i: nat): (k: nat)
    ensures k <= 8
  {
    if bits <= 8 * i then 0 else if bits >= 8 * i + 8 then 8 else bits - 8 * i
  }

  predicate Contains(net: Subnet, ip: seq<byte>) {
    var c := Canonical(ip);
    && |c| == |net.ip|
    && forall i :: 0 <= i < |c| ==>
         c[i] / Addresses.Pow2(8 - BitsIn(net.bits, i)) == net.ip[i] / Addresses.Pow2(8 - BitsIn(net.bits, i))
  }

  /** The last address of an IPv4 subnet: host bits all ones. */
  function BroadcastOf(net: Subnet): (b: seq<int>)
    ensures |b| == |net.ip|
  {
    seq(|net.ip|, i requires 0 <= i < |net.ip| =>
      var host := Addresses.Pow2(8 - BitsIn(net.bits, i)); net.ip[i] / host * host + host - 1)
  }

  const LIMITED_BROADCAST: seq<byte> := [255, 255, 255, 255]

  /** Destinations never forwarded to a gateway: loopback, link-local, multicast. */
  predicate NonRoutable(ip: seq<byte>) {
    var c := Canonical(ip);
    if |c| == 4 then
      c[0] == 127 || (c[0] == 169 && c[1] == 254) || c[0] / 0x10 == 0xe
    else if |c| == 16 then
      || (c[15] == 1 && forall i :: 0 <= i < 15 ==> c[i] == 0)
      || (c[0] == 0xfe && c[1] / 0x40 == 2)
      || c[0] == 0xff
    else false
  }

  datatype PeerInfo = PeerInfo(ip4: Addr4, ip6: Option<Addr6>, allowExit: bool)

  /** What the packet path of one node reads of its tunnel state. */
  datatype Node = Node(
    index: map<seq<byte>, PeerId>,
    peers: map<PeerId, PeerInfo>,
    subnet4: Subnet,
    subnet6: Option<Subnet>,
    gateway: Option<PeerId>,
    serverEnabled: bool,
    dnsIP: Option<seq<byte>>)

  predicate ValidNode(n: Node) {
    && |n.subnet4.ip| == 4 && (n.subnet6.Some? ==> |n.subnet6.value.ip| == 16)
    && forall k :: k in n.index ==> n.index[k] in n.peers
  }

  predicate InAwlSubnet(n: Node, ip: seq<byte>, isIPv6: bool) {
    if isIPv6 then n.subnet6.Some? && Contains(n.subnet6.value, ip) else Contains(n.subnet4, ip)
  }

  datatype Decision = Intercept | ToPeer(peer: PeerId, dir: Direction) | Broadcast | Ignore

  function Classify(n: Node, p: View): Decision
    requires ValidNode(n) && Ready(p)
  {
    var dst := Canonical(Dst(p));
    if n.dnsIP.Some? && dst == Canonical(n.dnsIP.value) then Intercept
    else if dst in n.index then
      var peer := n.index[dst];
      ToPeer(peer, if n.peers[peer].allowExit && n.serverEnabled && !InAwlSubnet(n, Src(p), p.isIPv6)
                   then Return else p.dir)
    else if !p.isIPv6 && (dst == BroadcastOf(n.subnet4) || dst == LIMITED_BROADCAST) then Broadcast
    else if n.gateway.Some? && !NonRoutable(dst) && !InAwlSubnet(n, Dst(p), p.isIPv6) then ToPeer(n.gateway.value, Forward)
    else Ignore
  }

  /** What a read of no bytes leaves: a cleared packet without addresses. */
  predicate Blank(p: View) { p.body == [] && !p.hasAddrs && !p.isIPv6 && p.dir == Peer }

  /** Classification of everything a TUN read hands on: a blank packet matches nothing before the gateway. */
  function Route(n: Node, p: View): Decision
    requires ValidNode(n) && (Ready(p) || Blank(p))
  {
    if p.hasAddrs then Classify(n, p)
    else if n.gateway.Some? then ToPeer(n.gateway.value, Forward)
    else Ignore
  }

  /** The node's own address in the packet's family. */
  function LocalIP(n: Node, isIPv6: bool): Option<seq<byte>> {
    if !isIPv6 then Some(n.subnet4.ip) else if n.subnet6.Some? then Some(n.subnet6.value.ip) else None
  }

  /** The address under which this node knows the sender, in the packet's family. */
  function SenderIP(n: Node, sender: PeerId, isIPv6: bool): (r: Option<seq<byte>>)
    requires sender in n.peers
    ensures r.Some? ==> |r.value| == AddrLen(isIPv6)
  {
    if !isIPv6 then Some(n.peers[sender].ip4)
    else match n.peers[sender].ip6 case None => None case Some(ip) => Some(ip)
  }

  /** Which addresses of a received packet are replaced, and by what. */
  datatype Plan = Plan(src: Option<seq<byte>>, dst: Option<seq<byte>>)

  /** None when the packet is dropped. */
  function AddressPlan(n: Node, sender: PeerId, dir: Direction, isIPv6: bool): (r: Option<Plan>)
    requires ValidNode(n) && sender in n.peers
    ensures r.Some? ==> (r.value.src.Some? ==> |r.value.src.value| == AddrLen(isIPv6))
    ensures r.Some? ==> (r.value.dst.Some? ==> |r.value.dst.value| == AddrLen(isIPv6))
  {
    var local := LocalIP(n, isIPv6);
    var from := SenderIP(n, sender, isIPv6);
    if local.None? then None
    else
      match dir
      case Forward =>
        if !n.serverEnabled || !n.peers[sender].allowExit || from.None? then None else Some(Plan(from, None))
      case Return =>
        if n.gateway != Some(sender) then None else Some(Plan(None, local))
      case Peer =>
        if from.None? then None else Some(Plan(from, local))
  }

  /** A parsed packet whose addresses were replaced, before the repair. */
  function Readdressed(p: View, src: Option<seq<byte>>, dst: Option<seq<byte>>): (r: View)
    requires Ready(p) && (src.Some? ==> |src.value| == AddrLen(p.isIPv6)) && (dst.Some? ==> |dst.value| == AddrLen(p.isIPv6))
    ensures Ready(r) && r.isIPv6 == p.isIPv6 && |r.body| == |p.body| && r.dir == p.dir
    ensures Src(r) == (if src.Some? then src.value else Src(p)) && Dst(r) == (if dst.Some? then dst.value else Dst(p))
    ensures forall i :: 0 <= i < |p.body| && !(SrcOffset(p.isIPv6) <= i < HeaderLen(p.isIPv6)) ==> r.body[i] == p.body[i]
  {
    var p1 := if src.Some? then SetSrc(p, src.value) else p;
    if dst.Some? then SetDst(p1, dst.value) else p1
  }

  /** The packet as written to the TUN, or None when it is dropped. */
  function Inbound(n: Node, sender: PeerId, p: View): (r: Option<View>)
    requires ValidNode(n) && sender in n.peers && Ready(p)
    ensures r.Some? ==> Ready(r.value) && r.value.isIPv6 == p.isIPv6 && r.value.dir == p.dir
  {
    match AddressPlan(n, sender, p.dir, p.isIPv6)
    case None => None
    case Some(plan) => Some(Recalculated(Readdressed(p, plan.src, plan.dst)))
  }
}

/** The in-place rewriting of packets received from a peer (writeInboundBatch of service/tunnel.go). */
module InboundBatch {
  import opened Wrappers
  import opened Bytes
  import opened PacketView
  import opened PacketBuffer
  import opened Routing

  /** One packet: dropped as it is, or readdressed and repaired in its buffer. */
  method Rewrite(packet: Packet, n: Node, sender: PeerId) returns (ok: bool)
    requires packet.Valid() && Ready(packet.Value()) && ValidNode(n) && sender in n.peers
    modifies packet, packet.buffer
    ensures packet.Valid() && ok == Inbound(n, sender, old(packet.Value())).Some?
    ensures packet.Value() == if ok then Inbound(n, sender, old(packet.Value())).value else old(packet.Value())
  {
    var localIP := LocalIP(n, packet.isIPv6);
    var senderIP := SenderIP(n, sender, packet.isIPv6);
    if localIP.None? {
      return false;
    }
    match packet.dir {
      case Forward =>
        if !n.serverEnabled || !n.peers[sender].allowExit || senderIP.None? {
          return false;
        }
        packet.WriteSrc(senderIP.value);
      case Return =>
        if n.gateway != Some(sender) {
          return false;
        }
        packet.WriteDst(localIP.value);
      case Peer =>
        if senderIP.None? {
          return false;
        }
        packet.WriteSrc(senderIP.value);
        packet.WriteDst(localIP.value);
    }
    packet.RecalculateChecksum();
    return true;
  }

  /** What is written of one packet. */
  function Bodies(n: Node, sender: PeerId, view: View): seq<seq<byte>>
    requires ValidNode(n) && sender in n.peers && Ready(view)
  {
    match Inbound(n, sender, view)
    case None => []
    case Some(v) => [v.body]
  }

  method Deliver(packet: Packet, n: Node, sender: PeerId, ghost view: View) returns (bufs: seq<seq<byte>>)
    requires packet.Valid() && packet.Value() == view && Ready(view) && ValidNode(n) && sender in n.peers
    modifies packet, packet.buffer
    ensures bufs == Bodies(n, sender, view)
  {
    var ok := Rewrite(packet, n, sender);
    if !ok {
      return [];
    }
    var body := packet.Slice(0, packet.size);
    assert body == packet.Body();
    return [body];
  }

  /** What a batch amounts to: the packets that are not dropped, rewritten, in their order. */
  function Written(n: Node, sender: PeerId, views: seq<View>): (bodies: seq<seq<byte>>)
    requires ValidNode(n) && sender in n.peers && AllReady(views)
  {
    if views == [] then []
    else Written(n, sender, views[..|views| - 1]) + Bodies(n, sender, views[|views| - 1])
  }

  predicate AllReady(views: seq<View>) {
    forall v :: v in views ==> Ready(v)
  }

  lemma WrittenNext(n: Node, sender: PeerId, views: seq<View>, i: nat)
    requires ValidNode(n) && sender in n.peers && AllReady(views) && i < |views|
    ensures Ready(views[i]) && AllReady(views[..i]) && AllReady(views[..i + 1])
    ensures Written(n, sender, views[..i + 1]) == Written(n, sender, views[..i]) + Bodies(n, sender, views[i])
  {
    assert views[i] in views && views[..i + 1][..i] == views[..i];
  }

  /** No packet is twice in the batch, and no two share a buffer. */
  predicate Apart(packets: seq<Packet>) {
    forall i, j :: 0 <= i < j < |packets| ==> packets[i] != packets[j] && packets[i].buffer != packets[j].buffer
  }

  ghost predicate Holds(packets: seq<Packet>, views: seq<View>, from: nat)
    requires |packets| == |views|
    reads packets, set p | p in packets :: p.buffer
  {
    forall i :: from <= i < |packets| ==> packets[i].Valid() && packets[i].Value() == views[i]
  }

  /** The whole batch; every packet is rewritten on its own. */
  method WriteInboundBatch(packets: seq<Packet>, n: Node, sender: PeerId, ghost views: seq<View>) returns (bufs: seq<seq<byte>>)
    requires ValidNode(n) && sender in n.peers && Apart(packets)
    requires |views| == |packets| && Holds(packets, views, 0) && AllReady(views)
    modifies packets, set p | p in packets :: p.buffer
    ensures bufs == Written(n, sender, views)
  {
    bufs := [];
    for i := 0 to |packets|
      invariant Holds(packets, views, i) && AllReady(views[..i]) && bufs == Written(n, sender, views[..i])
    {
      WrittenNext(n, sender, views, i);
      var more := Deliver(packets[i], n, sender, views[i]);
      bufs := bufs + more;
    }
    assert views[..|views|] == views;
  }
}

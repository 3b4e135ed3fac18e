/**
 The whole packet path between a gateway client and its exit node: classification, tagging, framing,
 decoding, parsing, address rewriting and checksum repair, composed in both directions.
 */
module GatewayRoundTrip {
  import opened Wrappers
  import opened Bytes
  import opened Checksum
  import opened HeaderChain
  import opened PacketView
  import opened PacketTheorems
  import opened Routing
  import Framing

  const NoAddr: Addr6 := [0, 0, 0, 0, 0, 0, 0, 0, 0, 0, 0, 0, 0, 0, 0, 0]

  /** A packet just read into a cleared buffer and parsed, carrying the given tag. */
  function Received(body: seq<byte>, dir: Direction): Option<View> {
    if IsIPv4(body) || IsIPv6(body) then Some(Parsed(View(body, false, false, 0, dir, NoAddr, NoAddr, false))) else None
  }

  /** What a node sends for a packet its kernel routed into the TUN: the peer, and the bytes on the stream. */
  function Sent(n: Node, body: seq<byte>): Option<(PeerId, seq<byte>)>
    requires ValidNode(n) && |body| <= MAX_PACKET_BODY
  {
    match Received(body, Peer)
    case None => None
    case Some(p) =>
      match Classify(n, p)
      case ToPeer(peer, dir) => Some((peer, Framing.Encode(Framing.Frame(p.body, dir))))
      case _ => None
  }

  /**
   The packets a node writes to its TUN for the bytes of a stream opened by `sender`; `eof` says
   whether the stream reports its end with its last bytes.
   */
  function Written(n: Node, sender: PeerId, wire: seq<byte>, eof: bool): seq<View>
    requires ValidNode(n) && sender in n.peers
  {
    WrittenFrames(n, sender, Framing.Decode(wire, eof))
  }

  function WrittenFrames(n: Node, sender: PeerId, frames: seq<Framing.Frame>): seq<View>
    requires ValidNode(n) && sender in n.peers
  {
    if frames == [] then []
    else WrittenFrame(n, sender, frames[0]) + WrittenFrames(n, sender, frames[1..])
  }

  function WrittenFrame(n: Node, sender: PeerId, f: Framing.Frame): seq<View>
    requires ValidNode(n) && sender in n.peers
  {
    if |f.body| > MAX_PACKET_BODY then []
    else
      match Received(f.body, f.dir)
      case None => []
      case Some(p) => match Inbound(n, sender, p) case None => [] case Some(r) => [r]
  }

  // ---- What a rewrite leaves of a packet ----------------------------------------------------------

  /** `r` is `p` with repaired checksums and, outside addresses and checksum fields, the same bytes. */
  ghost predicate RepairedFrom(p: View, r: View) {
    && Ready(p) && Ready(r) && |r.body| == |p.body| && r.isIPv6 == p.isIPv6
    && if p.isIPv6 then RepairedFrom6(p, r) else RepairedFrom4(p, r)
  }

  ghost predicate RepairedFrom4(p: View, r: View)
    requires Ready(p) && Ready(r) && |r.body| == |p.body| && !p.isIPv6 && !r.isIPv6
  {
    && IsIPv4(p.body) && IsIPv4(r.body)
    && (forall i :: 0 <= i < |p.body| && !(12 <= i < 20) && !ChecksumByte4(p.body, i) ==> r.body[i] == p.body[i])
    && Verifies(WordSum(r.body[..IPv4HeaderLen(p.body)]))
    && (HasSegment4(p.body) ==> Verifies(Total4(Src(r), Dst(r), p.body[9], r.body[IPv4HeaderLen(p.body)..])))
  }

  /**
   Over IPv6: a packet seen whole verifies; a first fragment verifies together with the rest of its
   datagram if it did before; anything else is only readdressed.
   */
  ghost predicate RepairedFrom6(p: View, r: View)
    requires Ready(p) && Ready(r) && |r.body| == |p.body| && p.isIPv6 && r.isIPv6
  {
    if HasSegment6(p.body) then
      && HasSegment6(r.body) && UpperLayer(r.body) == UpperLayer(p.body)
      && (forall i :: 0 <= i < |p.body| && !(8 <= i < 40) && i != FieldAt6(p.body) && i != FieldAt6(p.body) + 1
            ==> r.body[i] == p.body[i])
      && (if UpperLayer(p.body).fragmented
          then forall rest | |rest| < 0x1_0000_0000 - MAX_PACKET_BODY && VerifiesWith(p, rest) :: VerifiesWith(r, rest)
          else VerifiesWith(r, []))
    else forall i :: 0 <= i < |p.body| && !(8 <= i < 40) ==> r.body[i] == p.body[i]
  }

  lemma Readdress4(p: View, src: Option<seq<byte>>, dst: Option<seq<byte>>)
    requires Ready(p) && !p.isIPv6 && IsIPv4(p.body)
    requires (src.Some? ==> |src.value| == 4) && (dst.Some? ==> |dst.value| == 4)
    ensures var n := Readdressed(p, src, dst); var r := Recalculated(n);
            RepairedFrom(p, r) && Src(r) == Src(n) && Dst(r) == Dst(n)
  {
    var n := Readdressed(p, src, dst);
    SameLayout4(p.body, n.body);
    Repaired4(n);
    var r := Recalculated(n);
    assert forall i :: 0 <= i < |p.body| && !(12 <= i < 20) && !ChecksumByte4(p.body, i) ==> r.body[i] == n.body[i] == p.body[i];
  }

  lemma SameLayout4(p: seq<byte>, q: seq<byte>)
    requires IsIPv4(p) && |q| == |p| && forall i :: 0 <= i < |p| && !(12 <= i < 20) ==> q[i] == p[i]
    ensures IsIPv4(q) && IPv4HeaderLen(q) == IPv4HeaderLen(p) && q[9] == p[9] && (HasSegment4(q) <==> HasSegment4(p))
    ensures forall i :: 0 <= i < |p| ==> (ChecksumByte4(q, i) <==> ChecksumByte4(p, i))
  {
  }

  lemma Repaired4(n: View)
    requires Ready(n) && !n.isIPv6 && IsIPv4(n.body)
    ensures var r := Recalculated(n); RepairedFrom(n, r) && Src(r) == Src(n) && Dst(r) == Dst(n)
    ensures forall i :: 0 <= i < |n.body| && !ChecksumByte4(n.body, i) ==> Recalculated(n).body[i] == n.body[i]
  {
    RecalculateVerifies4(n.body);
    var r := Recalculated(n);
    SameField(r.body, n.body, 12, 16);
    SameField(r.body, n.body, 16, 20);
    assert r.body[0] == n.body[0];
  }

  lemma Readdress6(p: View, w: Rewrite)
    requires Ready(p) && p.isIPv6 && RemembersCurrent(p)
    ensures var n := Rewritten(p, w); var r := Recalculated6(n);
            RepairedFrom(p, r) && Src(r) == Src(n) && Dst(r) == Dst(n)
  {
    var n := Rewritten(p, w);
    var r := Recalculated6(n);
    if HasSegment6(p.body) {
      SameHeaders(p.body, n.body);
      if UpperLayer(p.body).fragmented {
        AdjustedFragment(n);
        forall rest | |rest| < 0x1_0000_0000 - MAX_PACKET_BODY && VerifiesWith(p, rest) ensures VerifiesWith(r, rest) {
          FirstFragmentStep(p, w, rest);
        }
      } else {
        RecalculateVerifies6(n);
      }
    } else {
      NotRepairable(p.body, n.body);
      Untouched(n);
    }
  }

  /** Readdressing does not make a packet repairable. */
  lemma NotRepairable(p: seq<byte>, q: seq<byte>)
    requires !HasSegment6(p) && |p| == |q| && |p| >= HEADER_LEN_6
    requires p[6] == q[6] && forall i :: HEADER_LEN_6 <= i < |p| ==> p[i] == q[i]
    ensures !HasSegment6(q)
  {
    if HasSegment6(q) { SameHeaders(q, p); }
  }

  lemma Untouched(n: View)
    requires Ready(n) && n.isIPv6 && !HasSegment6(n.body)
    ensures Recalculated6(n).body == n.body
  {
    var u := UpperLayer(n.body);
    if u.ok && !u.firstFragment { LaterFragmentUntouched(n); }
  }

  // ---- One hop ---------------------------------------------------------------------------------

  lemma ReceivedIsReady(body: seq<byte>, dir: Direction)
    requires Received(body, dir).Some? && |body| <= MAX_PACKET_BODY
    ensures var p := Received(body, dir).value;
            && Ready(p) && p.body == body && p.dir == dir
            && (if p.isIPv6 then RemembersCurrent(p) else IsIPv4(body))
  {
  }

  /** The tag survives the wire: what is written is what the receiver's rewrite makes of the tagged packet. */
  lemma OneFrameWritten(n: Node, sender: PeerId, body: seq<byte>, dir: Direction, eof: bool)
    requires ValidNode(n) && sender in n.peers && |body| < MAX_PACKET_BODY && Received(body, dir).Some?
    ensures Written(n, sender, Framing.Encode(Framing.Frame(body, dir)), eof)
         == match Inbound(n, sender, Received(body, dir).value) case None => [] case Some(r) => [r]
  {
    var f := Framing.Frame(body, dir);
    Framing.DecodeOneThenRest(f, [], eof);
    assert Framing.Encode(f) + [] == Framing.Encode(f);
    assert Framing.Decode([], eof) == [];
    assert WrittenFrames(n, sender, [f]) == WrittenFrame(n, sender, f) + WrittenFrames(n, sender, []);
  }

  lemma InboundRepairs(n: Node, sender: PeerId, p: View)
    requires ValidNode(n) && sender in n.peers && Ready(p) && AddressPlan(n, sender, p.dir, p.isIPv6).Some?
    requires if p.isIPv6 then RemembersCurrent(p) else IsIPv4(p.body)
    ensures var plan, r := AddressPlan(n, sender, p.dir, p.isIPv6).value, Inbound(n, sender, p).value;
            && RepairedFrom(p, r)
            && Src(r) == (if plan.src.Some? then plan.src.value else Src(p))
            && Dst(r) == (if plan.dst.Some? then plan.dst.value else Dst(p))
  {
    var plan := AddressPlan(n, sender, p.dir, p.isIPv6).value;
    if p.isIPv6 {
      var src: Option<Addr6> := if plan.src.Some? then Some(plan.src.value) else None;
      var dst: Option<Addr6> := if plan.dst.Some? then Some(plan.dst.value) else None;
      Readdress6(p, Rewrite(src, dst));
    } else {
      Readdress4(p, plan.src, plan.dst);
    }
  }

  lemma TagIrrelevant(p: View, tagged: View, r: View)
    requires tagged == p.(dir := tagged.dir) && RepairedFrom(tagged, r)
    ensures RepairedFrom(p, r)
  {
    if p.isIPv6 && HasSegment6(p.body) && UpperLayer(p.body).fragmented {
      forall rest | |rest| < 0x1_0000_0000 - MAX_PACKET_BODY && VerifiesWith(p, rest) ensures VerifiesWith(r, rest) {
        assert VerifiesWith(tagged, rest);
      }
    }
  }

  /** A tagged packet on the wire, as the receiver writes it out. */
  lemma Delivered(n: Node, sender: PeerId, body: seq<byte>, dir: Direction, eof: bool)
    requires ValidNode(n) && sender in n.peers && |body| < MAX_PACKET_BODY && Received(body, Peer).Some?
    requires AddressPlan(n, sender, dir, Received(body, Peer).value.isIPv6).Some?
    ensures var p := Received(body, Peer).value;
            var plan := AddressPlan(n, sender, dir, p.isIPv6).value;
            var out := Written(n, sender, Framing.Encode(Framing.Frame(body, dir)), eof);
            && Ready(p) && |out| == 1 && RepairedFrom(p, out[0])
            && Src(out[0]) == (if plan.src.Some? then plan.src.value else Src(p))
            && Dst(out[0]) == (if plan.dst.Some? then plan.dst.value else Dst(p))
  {
    var p, tagged := Received(body, Peer).value, Received(body, dir).value;
    ReceivedIsReady(body, Peer);
    ReceivedIsReady(body, dir);
    OneFrameWritten(n, sender, body, dir, eof);
    InboundRepairs(n, sender, tagged);
    TagIrrelevant(p, tagged, Inbound(n, sender, tagged).value);
  }

  lemma SentTo(n: Node, body: seq<byte>, peer: PeerId, dir: Direction)
    requires ValidNode(n) && |body| <= MAX_PACKET_BODY && Received(body, Peer).Some? && Ready(Received(body, Peer).value)
    requires Classify(n, Received(body, Peer).value) == ToPeer(peer, dir)
    ensures Sent(n, body) == Some((peer, Framing.Encode(Framing.Frame(body, dir))))
  {
  }

  // ---- The round trip -----------------------------------------------------------------------------

  /** The exit knows the client under this address. */
  function AddressAtExit(exit: Node, clientId: PeerId, isIPv6: bool): seq<byte>
    requires clientId in exit.peers && SenderIP(exit, clientId, isIPv6).Some?
  {
    SenderIP(exit, clientId, isIPv6).value
  }

  /** A client bound to an exit that serves it: permission given, server on, both families addressed. */
  predicate BoundPair(client: Node, clientId: PeerId, exit: Node, exitId: PeerId, isIPv6: bool) {
    && ValidNode(client) && ValidNode(exit)
    && client.gateway == Some(exitId) && exitId in client.peers
    && exit.serverEnabled && clientId in exit.peers && exit.peers[clientId].allowExit
    && LocalIP(client, isIPv6).Some? && LocalIP(exit, isIPv6).Some?
    && SenderIP(exit, clientId, isIPv6).Some?
    && var at := Canonical(AddressAtExit(exit, clientId, isIPv6));
       at in exit.index && exit.index[at] == clientId && !(exit.dnsIP.Some? && Canonical(exit.dnsIP.value) == at)
  }

  /** A routable destination outside both awl subnets that is neither a peer nor a special address of the client. */
  predicate OnTheInternet(client: Node, exit: Node, d: seq<byte>, isIPv6: bool) {
    && !NonRoutable(Canonical(d))
    && !InAwlSubnet(client, d, isIPv6) && !InAwlSubnet(exit, d, isIPv6)
    && Canonical(d) !in client.index
    && !(client.dnsIP.Some? && Canonical(d) == Canonical(client.dnsIP.value))
    && (!isIPv6 ==> Canonical(d) != BroadcastOf(client.subnet4) && Canonical(d) != LIMITED_BROADCAST)
  }

  lemma IsForwarded(client: Node, clientId: PeerId, exit: Node, exitId: PeerId, p: View)
    requires Ready(p) && BoundPair(client, clientId, exit, exitId, p.isIPv6) && OnTheInternet(client, exit, Dst(p), p.isIPv6)
    ensures Classify(client, p) == ToPeer(exitId, Forward)
  {
  }

  /** Outbound: the exit's kernel sees the packet coming from the client's address there, to the same destination. */
  lemma RequestReachesExit(client: Node, clientId: PeerId, exit: Node, exitId: PeerId, body: seq<byte>, eof: bool)
    requires Received(body, Peer).Some? && |body| < MAX_PACKET_BODY
    requires var p := Received(body, Peer).value;
             Ready(p) && BoundPair(client, clientId, exit, exitId, p.isIPv6) && OnTheInternet(client, exit, Dst(p), p.isIPv6)
    ensures var p := Received(body, Peer).value;
            && Sent(client, body).Some? && Sent(client, body).value.0 == exitId
            && var out := Written(exit, clientId, Sent(client, body).value.1, eof);
               && |out| == 1 && RepairedFrom(p, out[0])
               && Src(out[0]) == AddressAtExit(exit, clientId, p.isIPv6) && Dst(out[0]) == Dst(p)
  {
    var p := Received(body, Peer).value;
    IsForwarded(client, clientId, exit, exitId, p);
    SentTo(client, body, exitId, Forward);
    Delivered(exit, clientId, body, Forward, eof);
  }

  /** Back: the client's kernel sees the reply coming from the internet address, to the client's own address. */
  lemma ReplyReachesClient(client: Node, clientId: PeerId, exit: Node, exitId: PeerId, body: seq<byte>, eof: bool)
    requires Received(body, Peer).Some? && |body| < MAX_PACKET_BODY
    requires var q := Received(body, Peer).value;
             && Ready(q) && BoundPair(client, clientId, exit, exitId, q.isIPv6) && OnTheInternet(client, exit, Src(q), q.isIPv6)
             && Dst(q) == AddressAtExit(exit, clientId, q.isIPv6)
    ensures var q := Received(body, Peer).value;
            && Sent(exit, body).Some? && Sent(exit, body).value.0 == clientId
            && var back := Written(client, exitId, Sent(exit, body).value.1, eof);
               && |back| == 1 && RepairedFrom(q, back[0])
               && Src(back[0]) == Src(q) && Dst(back[0]) == LocalIP(client, q.isIPv6).value
  {
    var q := Received(body, Peer).value;
    assert Classify(exit, q) == ToPeer(clientId, Return);
    SentTo(exit, body, clientId, Return);
    Delivered(client, exitId, body, Return, eof);
  }

  /**
   The round trip: for a bound, permitted pair and any internet destination, the request leaves the
   exit's TUN from the client's address at the exit, and every reply to that address from that
   destination reaches the client's TUN as if the destination had answered it directly.
   */
  lemma GatewayRoundTrip(client: Node, clientId: PeerId, exit: Node, exitId: PeerId, request: seq<byte>, reply: seq<byte>,
                         eofThere: bool, eofBack: bool)
    requires Received(request, Peer).Some? && |request| < MAX_PACKET_BODY
    requires Received(reply, Peer).Some? && |reply| < MAX_PACKET_BODY
    requires var p, q := Received(request, Peer).value, Received(reply, Peer).value;
             && Ready(p) && Ready(q) && p.isIPv6 == q.isIPv6
             && BoundPair(client, clientId, exit, exitId, p.isIPv6) && OnTheInternet(client, exit, Dst(p), p.isIPv6)
             && Src(q) == Dst(p) && Dst(q) == AddressAtExit(exit, clientId, p.isIPv6)
    ensures var p, q := Received(request, Peer).value, Received(reply, Peer).value;
            && Sent(client, request).Some? && Sent(client, request).value.0 == exitId
            && Sent(exit, reply).Some? && Sent(exit, reply).value.0 == clientId
            && var out := Written(exit, clientId, Sent(client, request).value.1, eofThere);
               var back := Written(client, exitId, Sent(exit, reply).value.1, eofBack);
               && |out| == 1 && RepairedFrom(p, out[0]) && Src(out[0]) == Dst(q) && Dst(out[0]) == Src(q)
               && |back| == 1 && RepairedFrom(q, back[0])
               && Src(back[0]) == Dst(p) && Dst(back[0]) == LocalIP(client, p.isIPv6).value
  {
    RequestReachesExit(client, clientId, exit, exitId, request, eofThere);
    ReplyReachesClient(client, clientId, exit, exitId, reply, eofBack);
  }

  // ---- Empty reads -------------------------------------------------------------------------------------

  /** An empty read goes to the gateway as an empty frame, and whoever gets one writes nothing. */
  lemma EmptyIsDropped(n: Node, sender: PeerId, dir: Direction, eof: bool)
    requires ValidNode(n) && sender in n.peers
    ensures Written(n, sender, Framing.Encode(Framing.Frame([], dir)), eof) == []
  {
    var f := Framing.Frame([], dir);
    Framing.DecodeOneThenRest(f, [], eof);
    assert Framing.Encode(f) + [] == Framing.Encode(f);
    assert Framing.Decode([], eof) == [];
    assert WrittenFrames(n, sender, [f]) == WrittenFrame(n, sender, f) + WrittenFrames(n, sender, []);
  }

  // ---- What the receiver refuses ------------------------------------------------------------------

  /**
   The tag alone opens nothing: forwarded packets are written only by a serving node for a permitted
   peer, returned packets only by a client from its own gateway.
   */
  lemma UnpermittedIsDropped(n: Node, sender: PeerId, wire: seq<byte>, eof: bool, r: View)
    requires ValidNode(n) && sender in n.peers && r in Written(n, sender, wire, eof)
    ensures r.dir == Forward ==> n.serverEnabled && n.peers[sender].allowExit
    ensures r.dir == Return ==> n.gateway == Some(sender)
  {
    var frames := Framing.Decode(wire, eof);
    var i := WrittenBySome(n, sender, frames, r);
    WrittenMeansPlanned(n, sender, frames[i], r);
  }

  lemma WrittenMeansPlanned(n: Node, sender: PeerId, f: Framing.Frame, r: View)
    requires ValidNode(n) && sender in n.peers && r in WrittenFrame(n, sender, f)
    ensures r.dir == f.dir && AddressPlan(n, sender, r.dir, r.isIPv6).Some?
  {
  }

  lemma {:induction false} WrittenBySome(n: Node, sender: PeerId, frames: seq<Framing.Frame>, r: View) returns (i: nat)
    requires ValidNode(n) && sender in n.peers && r in WrittenFrames(n, sender, frames)
    ensures i < |frames| && r in WrittenFrame(n, sender, frames[i])
  {
    if r in WrittenFrame(n, sender, frames[0]) {
      i := 0;
    } else {
      i := WrittenBySome(n, sender, frames[1..], r);
      i := i + 1;
    }
  }
}

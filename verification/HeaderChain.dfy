/**
 The IPv6 extension-header walk (section 4 of RFC 8200).

 `Ipv6UpperLayer` is the loop of vpn/packet.go; `Walk` is the recursive definition it refines.  The
 independent meaning is given by serialization: a packet carries a chain of headers when the bytes
 after its base header start with the encoding of that chain, and the walk succeeds exactly on the
 packets that carry a chain it can follow.
 */
module HeaderChain {
  import opened Bytes

  const BASE_HEADER := 40
  const MAX_HEADERS := 16

  const TCP: byte := 6
  const UDP: byte := 17
  const ICMPV6: byte := 58

  const HOP_BY_HOP: byte := 0
  const ROUTING: byte := 43
  const FRAGMENT: byte := 44
  const ESP: byte := 50
  const AH: byte := 51
  const NO_NEXT: byte := 59
  const DEST_OPTS: byte := 60

  datatype Upper = Upper(protocol: byte, offset: nat, fragmented: bool, firstFragment: bool, ok: bool)

  const Malformed := Upper(0, 0, false, false, false)

  predicate IsOptions(next: byte) {
    next == HOP_BY_HOP || next == DEST_OPTS
  }

  /** Headers whose presence makes a rewritten checksum meaningless; the walk gives up on them. */
  predicate IsOpaque(next: byte) {
    next == ROUTING || next == ESP || next == AH || next == NO_NEXT
  }

  predicate IsUpperLayer(next: byte) {
    !IsOptions(next) && next != FRAGMENT && !IsOpaque(next)
  }

  /** One look at the chain: the walk stops with an answer, or goes on to the next header. */
  datatype Look = Stop(answer: Upper) | Go(next: byte, offset: nat, fragmented: bool)

  function LookAt(packet: seq<byte>, next: byte, offset: nat, fragmented: bool): (l: Look)
    requires offset <= |packet|
    ensures l.Go? ==> offset < l.offset <= |packet|
    ensures l.Stop? && l.answer.ok ==> offset <= l.answer.offset <= |packet|
  {
    if IsOptions(next) then
      if offset + 2 > |packet| then Stop(Malformed)
      else
        var headerLen := ((packet[offset + 1] as int) + 1) * 8;
        if offset + headerLen > |packet| then Stop(Malformed)
        else Go(packet[offset], offset + headerLen, fragmented)
    else if next == FRAGMENT then
      if offset + 8 > |packet| then Stop(Malformed)
      else if Word(packet, offset + 2) / 8 == 0 then Go(packet[offset], offset + 8, true)
      else Stop(Upper(packet[offset], offset + 8, true, false, true))
    else Stop(Upper(next, offset, fragmented, true, !IsOpaque(next)))
  }

  /** The header chain from `offset` on, looking at no more than `fuel` headers. */
  function Walk(packet: seq<byte>, next: byte, offset: nat, fragmented: bool, fuel: nat): (u: Upper)
    requires offset <= |packet|
    ensures u.ok ==> offset <= u.offset <= |packet|
    decreases fuel, packet
  {
    if fuel == 0 then Malformed
    else
      match LookAt(packet, next, offset, fragmented)
      case Stop(answer) => answer
      case Go(next', offset', fragmented') => Walk(packet, next', offset', fragmented', fuel - 1)
  }

  function UpperLayer(packet: seq<byte>): (u: Upper)
    ensures u.ok ==> BASE_HEADER <= u.offset <= |packet|
  {
    if |packet| < BASE_HEADER then Malformed
    else Walk(packet, packet[6], BASE_HEADER, false, MAX_HEADERS)
  }

  method Ipv6UpperLayer(packet: seq<byte>)
    returns (protocol: byte, offset: nat, fragmented: bool, firstFragment: bool, ok: bool)
    ensures Upper(protocol, offset, fragmented, firstFragment, ok) == UpperLayer(packet)
    ensures ok ==> offset <= |packet|
  {
    if |packet| < BASE_HEADER {
      return 0, 0, false, false, false;
    }
    var next := packet[6];
    offset := BASE_HEADER;
    fragmented, firstFragment := false, true;
    var i := 0;
    while i < MAX_HEADERS
      invariant 0 <= i <= MAX_HEADERS && offset <= |packet| && firstFragment
      invariant UpperLayer(packet) == Walk(packet, next, offset, fragmented, MAX_HEADERS - i)
    {
      if next == TCP || next == UDP || next == ICMPV6 {
        return next, offset, fragmented, firstFragment, true;
      } else if next == HOP_BY_HOP || next == DEST_OPTS {
        if offset + 2 > |packet| {
          return 0, 0, false, false, false;
        }
        var headerLen := ((packet[offset + 1] as int) + 1) * 8;
        if headerLen < 8 || offset + headerLen > |packet| {
          return 0, 0, false, false, false;
        }
        next := packet[offset];
        offset := offset + headerLen;
      } else if next == FRAGMENT {
        if offset + 8 > |packet| {
          return 0, 0, false, false, false;
        }
        var fragField := Word(packet, offset + 2);
        var fragmentOffset := (fragField - fragField % 8) / 8;
        fragmented := true;
        firstFragment := fragmentOffset == 0;
        next := packet[offset];
        offset := offset + 8;
        if !firstFragment {
          return next, offset, true, false, true;
        }
      } else if next == ROUTING || next == ESP || next == AH || next == NO_NEXT {
        return next, offset, fragmented, firstFragment, false;
      } else {
        return next, offset, fragmented, firstFragment, true;
      }
      i := i + 1;
    }
    return 0, 0, false, false, false;
  }

  // ---- Serialized chains -----------------------------------------------------------------------

  /** An extension header the walk steps over, without its next-header byte. */
  datatype Ext = Options(kind: byte, content: seq<byte>) | FirstFragment(content: seq<byte>)

  /**
   What a chain of headers leads to: an upper-layer protocol, or a later fragment, whose remaining
   bytes are the middle of a datagram.
   */
  datatype Chain =
    | Payload(protocol: byte)
    | LaterFragment(next: byte, content: seq<byte>)
    | Header(ext: Ext, rest: Chain)

  predicate WellFormedExt(e: Ext) {
    match e
    case Options(kind, content) => IsOptions(kind) && (|content| + 2) % 8 == 0 && 8 <= |content| + 2 <= 0x800
    case FirstFragment(content) => |content| == 7 && Word(content, 1) / 8 == 0
  }

  predicate WellFormed(c: Chain) {
    match c
    case Payload(protocol) => IsUpperLayer(protocol)
    case LaterFragment(_, content) => |content| == 7 && Word(content, 1) / 8 != 0
    case Header(ext, rest) => WellFormedExt(ext) && WellFormed(rest)
  }

  /** The next-header value that introduces the chain. */
  function FirstKind(c: Chain): byte {
    match c
    case Payload(protocol) => protocol
    case LaterFragment(_, _) => FRAGMENT
    case Header(Options(kind, _), _) => kind
    case Header(FirstFragment(_), _) => FRAGMENT
  }

  function EncodeExt(e: Ext, next: byte): (s: seq<byte>)
    requires WellFormedExt(e)
  {
    match e
    case Options(_, content) => [next, (|content| + 2) / 8 - 1] + content
    case FirstFragment(content) => [next] + content
  }

  function Encode(c: Chain): seq<byte>
    requires WellFormed(c)
  {
    match c
    case Payload(_) => []
    case LaterFragment(next, content) => [next] + content
    case Header(ext, rest) => EncodeExt(ext, FirstKind(rest)) + Encode(rest)
  }

  /** How many headers must be looked at to reach the end of the chain. */
  function Looks(c: Chain): nat {
    match c
    case Payload(_) => 1
    case LaterFragment(_, _) => 1
    case Header(_, rest) => 1 + Looks(rest)
  }

  predicate HasFragment(c: Chain) {
    match c
    case Payload(_) => false
    case LaterFragment(_, _) => true
    case Header(ext, rest) => ext.FirstFragment? || HasFragment(rest)
  }

  function LastProtocol(c: Chain): byte {
    match c
    case Payload(protocol) => protocol
    case LaterFragment(next, _) => next
    case Header(_, rest) => LastProtocol(rest)
  }

  predicate EndsInLaterFragment(c: Chain) {
    match c
    case Payload(_) => false
    case LaterFragment(_, _) => true
    case Header(_, rest) => EndsInLaterFragment(rest)
  }

  function Outcome(c: Chain, offset: nat, fragmented: bool): Upper
    requires WellFormed(c)
  {
    Upper(LastProtocol(c), offset + |Encode(c)|, fragmented || HasFragment(c), !EndsInLaterFragment(c), true)
  }

  lemma StepOver(packet: seq<byte>, offset: nat, ext: Ext, next: byte, fragmented: bool)
    requires WellFormedExt(ext) && offset + |EncodeExt(ext, next)| <= |packet|
    requires packet[offset..offset + |EncodeExt(ext, next)|] == EncodeExt(ext, next)
    ensures LookAt(packet, if ext.Options? then ext.kind else FRAGMENT, offset, fragmented)
         == Go(next, offset + |EncodeExt(ext, next)|, fragmented || ext.FirstFragment?)
  {
  }

  lemma SplitHeader(packet: seq<byte>, offset: nat, head: seq<byte>, tail: seq<byte>, payload: seq<byte>)
    requires offset <= |packet| && packet[offset..] == head + tail + payload
    ensures offset + |head| <= |packet|
    ensures packet[offset..offset + |head|] == head && packet[offset + |head|..] == tail + payload
  {
  }

  lemma StopAtLaterFragment(packet: seq<byte>, offset: nat, next: byte, content: seq<byte>, payload: seq<byte>, fragmented: bool)
    requires |content| == 7 && Word(content, 1) / 8 != 0
    requires offset <= |packet| && packet[offset..] == [next] + content + payload
    ensures LookAt(packet, FRAGMENT, offset, fragmented) == Stop(Upper(next, offset + 8, true, false, true))
  {
  }

  /** The bytes of `packet` from `offset` on are the encoding of `c`, then `payload`. */
  predicate EncodedAt(packet: seq<byte>, offset: nat, c: Chain, payload: seq<byte>) {
    WellFormed(c) && offset <= |packet| && packet[offset..] == Encode(c) + payload
  }

  /** A packet whose bytes from `offset` on encode a chain is walked to the end of that chain. */
  lemma {:induction false} WalkComplete(packet: seq<byte>, offset: nat, c: Chain, payload: seq<byte>, fragmented: bool, fuel: nat)
    requires EncodedAt(packet, offset, c, payload) && Looks(c) <= fuel
    ensures Walk(packet, FirstKind(c), offset, fragmented, fuel) == Outcome(c, offset, fragmented)
    decreases c
  {
    match c
    case Payload(_) =>
    case LaterFragment(next, content) =>
      StopAtLaterFragment(packet, offset, next, content, payload, fragmented);
    case Header(ext, rest) =>
      var end := RestEncodedAt(packet, offset, ext, rest, payload);
      WalkComplete(packet, end, rest, payload, fragmented || ext.FirstFragment?, fuel - 1);
      WalkOverHeader(packet, offset, ext, rest, payload, fragmented, fuel);
  }

  lemma RestEncodedAt(packet: seq<byte>, offset: nat, ext: Ext, rest: Chain, payload: seq<byte>) returns (end: nat)
    requires EncodedAt(packet, offset, Header(ext, rest), payload)
    ensures end == offset + |EncodeExt(ext, FirstKind(rest))| && EncodedAt(packet, end, rest, payload)
  {
    HeadEncodedAt(packet, offset, ext, rest, payload);
    end := offset + |EncodeExt(ext, FirstKind(rest))|;
  }

  lemma WalkOverHeader(packet: seq<byte>, offset: nat, ext: Ext, rest: Chain, payload: seq<byte>, fragmented: bool, fuel: nat)
    requires EncodedAt(packet, offset, Header(ext, rest), payload) && fuel > 0
    requires var end := offset + |EncodeExt(ext, FirstKind(rest))|;
             var fragmented' := fragmented || ext.FirstFragment?;
             end <= |packet| && Walk(packet, FirstKind(rest), end, fragmented', fuel - 1) == Outcome(rest, end, fragmented')
    ensures Walk(packet, FirstKind(Header(ext, rest)), offset, fragmented, fuel) == Outcome(Header(ext, rest), offset, fragmented)
  {
    HeadIsStepped(packet, offset, ext, rest, payload, fragmented);
    OutcomeOfHeader(ext, rest, offset, fragmented);
  }

  lemma HeadIsStepped(packet: seq<byte>, offset: nat, ext: Ext, rest: Chain, payload: seq<byte>, fragmented: bool)
    requires EncodedAt(packet, offset, Header(ext, rest), payload)
    ensures LookAt(packet, FirstKind(Header(ext, rest)), offset, fragmented)
         == Go(FirstKind(rest), offset + |EncodeExt(ext, FirstKind(rest))|, fragmented || ext.FirstFragment?)
  {
    HeadEncodedAt(packet, offset, ext, rest, payload);
    StepOver(packet, offset, ext, FirstKind(rest), fragmented);
  }

  lemma OutcomeOfHeader(ext: Ext, rest: Chain, offset: nat, fragmented: bool)
    requires WellFormed(Header(ext, rest))
    ensures Outcome(Header(ext, rest), offset, fragmented)
         == Outcome(rest, offset + |EncodeExt(ext, FirstKind(rest))|, fragmented || ext.FirstFragment?)
  {
  }

  lemma HeadEncodedAt(packet: seq<byte>, offset: nat, ext: Ext, rest: Chain, payload: seq<byte>)
    requires EncodedAt(packet, offset, Header(ext, rest), payload)
    ensures var head := EncodeExt(ext, FirstKind(rest));
            offset + |head| <= |packet| && packet[offset..offset + |head|] == head && packet[offset + |head|..] == Encode(rest) + payload
  {
    var head := EncodeExt(ext, FirstKind(rest));
    SplitHeader(packet, offset, head, Encode(rest), payload);
  }

  /** The header the walk stepped over at `offset`. */
  lemma SteppedOver(packet: seq<byte>, next: byte, offset: nat, fragmented: bool) returns (ext: Ext)
    requires offset <= |packet| && LookAt(packet, next, offset, fragmented).Go?
    ensures WellFormedExt(ext) && next == (if ext.Options? then ext.kind else FRAGMENT)
    ensures EncodeExt(ext, packet[offset]) == packet[offset..LookAt(packet, next, offset, fragmented).offset]
  {
    var end := LookAt(packet, next, offset, fragmented).offset;
    if IsOptions(next) {
      ext := Options(next, packet[offset + 2..end]);
    } else {
      ext := FirstFragment(packet[offset + 1..end]);
    }
  }

  /** Every success of the walk comes from such a chain. */
  lemma {:induction false} WalkSound(packet: seq<byte>, next: byte, offset: nat, fragmented: bool, fuel: nat)
    returns (c: Chain, payload: seq<byte>)
    requires offset <= |packet| && Walk(packet, next, offset, fragmented, fuel).ok
    ensures WellFormed(c) && Looks(c) <= fuel && FirstKind(c) == next
    ensures packet[offset..] == Encode(c) + payload
    decreases fuel
  {
    var l := LookAt(packet, next, offset, fragmented);
    if l.Go? {
      var ext := SteppedOver(packet, next, offset, fragmented);
      var rest;
      rest, payload := WalkSound(packet, l.next, l.offset, l.fragmented, fuel - 1);
      c := Header(ext, rest);
      Rejoin(packet, offset, l.offset, Encode(rest), payload);
    } else {
      c, payload := WhereItStopped(packet, next, offset, fragmented);
    }
  }

  lemma Rejoin(packet: seq<byte>, from: nat, mid: nat, tail: seq<byte>, payload: seq<byte>)
    requires from <= mid <= |packet| && packet[mid..] == tail + payload
    ensures packet[from..] == packet[from..mid] + tail + payload
  {
  }

  lemma WhereItStopped(packet: seq<byte>, next: byte, offset: nat, fragmented: bool) returns (c: Chain, payload: seq<byte>)
    requires offset <= |packet|
    requires var l := LookAt(packet, next, offset, fragmented); l.Stop? && l.answer.ok
    ensures WellFormed(c) && Looks(c) == 1 && FirstKind(c) == next
    ensures packet[offset..] == Encode(c) + payload
  {
    if next == FRAGMENT {
      c, payload := LaterFragment(packet[offset], packet[offset + 1..offset + 8]), packet[offset + 8..];
    } else {
      c, payload := Payload(next), packet[offset..];
    }
  }

  /** `packet` is a base header, then the encoding of `c`, then `payload`. */
  predicate Carries(packet: seq<byte>, c: Chain, payload: seq<byte>) {
    EncodedAt(packet, BASE_HEADER, c, payload) && packet[6] == FirstKind(c)
  }

  /**
   The walk succeeds exactly on the packets that carry a chain reaching its end within sixteen
   looks, and then reports that chain's protocol, end and fragment flags.
   */
  lemma UpperLayerMeaning(packet: seq<byte>)
    ensures UpperLayer(packet).ok <==> exists c, payload :: Carries(packet, c, payload) && Looks(c) <= MAX_HEADERS
    ensures forall c, payload :: Carries(packet, c, payload) && Looks(c) <= MAX_HEADERS
              ==> UpperLayer(packet) == Outcome(c, BASE_HEADER, false)
  {
    if UpperLayer(packet).ok {
      var c, payload := WalkSound(packet, packet[6], BASE_HEADER, false, MAX_HEADERS);
      assert Carries(packet, c, payload);
    }
    forall c, payload | Carries(packet, c, payload) && Looks(c) <= MAX_HEADERS
      ensures UpperLayer(packet) == Outcome(c, BASE_HEADER, false)
    {
      WalkComplete(packet, BASE_HEADER, c, payload, false, MAX_HEADERS);
    }
  }

  lemma LookLocal(p: seq<byte>, q: seq<byte>, next: byte, offset: nat, fragmented: bool)
    requires offset <= |p| && offset <= |q|
    requires var l := LookAt(p, next, offset, fragmented);
             var end := if l.Go? then l.offset else l.answer.offset;
             (l.Go? || l.answer.ok) && end <= |q| && forall i :: offset <= i < end ==> p[i] == q[i]
    ensures LookAt(q, next, offset, fragmented) == LookAt(p, next, offset, fragmented)
  {
  }

  lemma {:induction false} WalkLocal(p: seq<byte>, q: seq<byte>, next: byte, offset: nat, fragmented: bool, fuel: nat)
    requires offset <= |p| && Walk(p, next, offset, fragmented, fuel).ok
    requires Walk(p, next, offset, fragmented, fuel).offset <= |q|
    requires forall i :: offset <= i < Walk(p, next, offset, fragmented, fuel).offset ==> p[i] == q[i]
    ensures Walk(q, next, offset, fragmented, fuel) == Walk(p, next, offset, fragmented, fuel)
    decreases fuel
  {
    LookLocal(p, q, next, offset, fragmented);
    var l := LookAt(p, next, offset, fragmented);
    if l.Go? {
      WalkLocal(p, q, l.next, l.offset, l.fragmented, fuel - 1);
    }
  }

  /**
   Nothing beyond the reported offset is parsed - in particular nothing past a later fragment's
   header - and of the base header only the next-header byte is read: addresses may be rewritten.
   */
  lemma UpperLayerLocal(p: seq<byte>, q: seq<byte>)
    requires UpperLayer(p).ok && UpperLayer(p).offset <= |q| && p[6] == q[6]
    requires forall i :: BASE_HEADER <= i < UpperLayer(p).offset ==> p[i] == q[i]
    ensures UpperLayer(q) == UpperLayer(p)
  {
    WalkLocal(p, q, p[6], BASE_HEADER, false, MAX_HEADERS);
  }
}

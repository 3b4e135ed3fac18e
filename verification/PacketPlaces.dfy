/**
 Where things are in a packet, in the numbers of RFC 791, RFC 768, RFC 9293, RFC 8200 and RFC 4443
 themselves: which packets are accepted, which bytes a repair may touch, and what it leaves there.
 */
module PacketPlaces {
  import opened Wrappers
  import opened Bytes
  import opened Checksum
  import opened HeaderChain
  import opened PacketView
  import opened PacketTheorems

  /** The checksum of a segment of this protocol, 6 for TCP, 17 for UDP and 58 for ICMPv6, is at `rel`. */
  predicate ChecksumAt(protocol: int, rel: int) {
    (protocol == 6 && rel == 16) || (protocol == 17 && rel == 6) || (protocol == 58 && rel == 2)
  }

  /** The segment is long enough to hold it, as the source asks. */
  predicate LongEnough(protocol: int, length: int) {
    (protocol == 6 && length >= 18) || (protocol == 17 && length >= 8) || (protocol == 58 && length >= 4)
  }

  /** Byte `i` is one of the two bytes of the checksum of a segment that starts at `start`. */
  predicate ChecksumByte(protocol: int, start: int, i: int) {
    ChecksumAt(protocol, i - start) || ChecksumAt(protocol, i - start - 1)
  }

  // ---- What is accepted ------------------------------------------------------------------------------

  /** The first byte says it: version 4 with a header of 5 to 15 words that is there, or version 6 with 40 bytes. */
  lemma Accepted(body: seq<byte>)
    ensures IsIPv4(body) <==> |body| >= 20 && 0x45 <= body[0] <= 0x4f && 4 * (body[0] - 0x40) <= |body|
    ensures IsIPv6(body) <==> |body| >= 40 && 0x60 <= body[0] <= 0x6f
  {
  }

  /** What parsing notes: the family, the protocol byte, and over IPv6 the pair of addresses. */
  lemma ParsedPlaces(v: View)
    requires (IsIPv4(v.body) || IsIPv6(v.body)) && |v.body| <= MAX_PACKET_BODY
    ensures var p := Parsed(v);
            && Ready(p) && p.body == v.body && p.dir == v.dir && p.isIPv6 == (v.body[0] / 16 == 6)
            && p.protocol == v.body[if p.isIPv6 then 6 else 9]
            && (p.originalValid <==> p.isIPv6)
            && (p.isIPv6 ==> p.originalSrc == v.body[8..24] && p.originalDst == v.body[24..40])
  {
  }

  /** The addresses of a packet, and what replacing them changes. */
  lemma AddressPlaces(v: View, ip: seq<byte>)
    requires Ready(v) && |ip| == if v.isIPv6 then 16 else 4
    ensures Src(v) == (if v.isIPv6 then v.body[8..24] else v.body[12..16])
    ensures Dst(v) == (if v.isIPv6 then v.body[24..40] else v.body[16..20])
    ensures SetSrc(v, ip).body == if v.isIPv6 then v.body[..8] + ip + v.body[24..] else v.body[..12] + ip + v.body[16..]
    ensures SetDst(v, ip).body == if v.isIPv6 then v.body[..24] + ip + v.body[40..] else v.body[..16] + ip + v.body[20..]
  {
  }

  // ---- IPv4 ------------------------------------------------------------------------------------------

  /** The two bytes of the header checksum, and those of the segment's if there is one. */
  predicate MayChange4(body: seq<byte>, i: int)
    requires |body| >= 20
  {
    var header := 4 * (body[0] % 16);
    i == 10 || i == 11
    || (body[9] != 58 && LongEnough(body[9], |body| - header) && ChecksumByte(body[9], header, i))
  }

  /**
   The repair of an IPv4 packet: at most those bytes change, the header folds to 0xffff, and so does
   a TCP or UDP segment with its pseudo-header.  Without a proper header nothing changes at all.
   */
  lemma RepairPlaces4(body: seq<byte>)
    requires 20 <= |body| <= MAX_PACKET_BODY
    ensures var r, header := Recalculated4(body), 4 * (body[0] % 16);
            if header < 20 || header > |body| then r == body
            else
              && (forall i :: 0 <= i < |body| && !MayChange4(body, i) ==> r[i] == body[i])
              && (body[0] / 16 == 4 ==>
                   && Verifies(WordSum(r[..header]))
                   && (body[9] != 58 && LongEnough(body[9], |body| - header) ==>
                        Verifies(Total4(body[12..16], body[16..20], body[9], r[header..]))))
  {
    var n := IPv4HeaderLen(body);
    if 20 <= n <= |body| {
      FieldPlaces(body[9], |body| - n);
      if body[0] / 16 == 4 {
        RecalculateVerifies4(body);
        if body[9] != 58 && LongEnough(body[9], |body| - n) {
          SegmentPlaces4(body);
        }
      }
    }
  }

  lemma SegmentPlaces4(body: seq<byte>)
    requires HasSegment4(body) && |body| <= MAX_PACKET_BODY
    ensures Verifies(Total4(body[12..16], body[16..20], body[9], Recalculated4(body)[IPv4HeaderLen(body)..]))
  {
    AddressesStay4(body);
    RecalculateVerifies4(body);
  }

  lemma AddressesStay4(body: seq<byte>)
    requires IsIPv4(body) && |body| <= MAX_PACKET_BODY
    ensures Recalculated4(body)[12..16] == body[12..16] && Recalculated4(body)[16..20] == body[16..20]
  {
    var r := Recalculated4(body);
    RecalculateVerifies4(body);
    forall i | 12 <= i < 20 ensures r[i] == body[i] {
      assert !ChecksumByte4(body, i);
    }
  }

  /** The field the code looks for is the one of the standards. */
  lemma FieldPlaces(protocol: byte, length: int)
    ensures ChecksumField(protocol, true).Some? <==> protocol == 6 || protocol == 17 || protocol == 58
    ensures ChecksumField(protocol, false).Some? <==> protocol == 6 || protocol == 17
    ensures ChecksumField(protocol, true).Some? ==>
      && (forall rel :: ChecksumAt(protocol, rel) <==> rel == ChecksumField(protocol, true).value)
      && (LongEnough(protocol, length) <==> ChecksumField(protocol, true).value + 2 <= length)
  {
  }

  // ---- IPv6 ------------------------------------------------------------------------------------------

  /** The packet is one whose checksum can be repaired: long enough, and whole or a first fragment of remembered origin. */
  predicate Repairable6(v: View) {
    var u := UpperLayer(v.body);
    u.ok && LongEnough(u.protocol, |v.body| - u.offset) && (u.fragmented ==> u.firstFragment && v.originalValid)
  }

  /**
   The repair of an IPv6 packet: at most the two checksum bytes change, and only of a repairable one.
   A whole packet folds to 0xffff afterwards; a first fragment does together with any rest for which
   it did before under the remembered addresses.
   */
  lemma RepairPlaces6(v: View)
    requires Ready(v) && v.isIPv6
    ensures var r, u := Recalculated6(v), UpperLayer(v.body);
            && (forall i :: 0 <= i < |v.body| && !(Repairable6(v) && ChecksumByte(u.protocol, u.offset, i)) ==> r.body[i] == v.body[i])
            && (Repairable6(v) && !u.fragmented ==>
                 Verifies(Total6(v.body[8..24], v.body[24..40], u.protocol, r.body[u.offset..])))
            && (u.ok ==> r.protocol == u.protocol)
  {
    var u := UpperLayer(v.body);
    if u.ok {
      StopsFragmented(v.body, v.body[6], BASE_HEADER, false, MAX_HEADERS);
      FieldPlaces(u.protocol, |v.body| - u.offset);
      if Repairable6(v) && !u.fragmented {
        WholePlaces6(v);
      } else if Repairable6(v) {
        AdjustedFragment(v);
      } else {
        UnrepairableUntouched(v);
      }
    }
  }

  lemma WholePlaces6(v: View)
    requires Ready(v) && v.isIPv6 && HasSegment6(v.body) && !UpperLayer(v.body).fragmented
    ensures var r, u := Recalculated6(v), UpperLayer(v.body);
            && (forall i :: 0 <= i < |v.body| && !ChecksumByte(u.protocol, u.offset, i) ==> r.body[i] == v.body[i])
            && Verifies(Total6(v.body[8..24], v.body[24..40], u.protocol, r.body[u.offset..])) && r.protocol == u.protocol
  {
    var r, u := Recalculated6(v), UpperLayer(v.body);
    RecalculateVerifies6(v);
    FieldPlaces(u.protocol, |v.body| - u.offset);
    assert Segment6(r.body) + [] == Segment6(r.body);
  }

  lemma UnrepairableUntouched(v: View)
    requires Ready(v) && v.isIPv6 && UpperLayer(v.body).ok && !Repairable6(v)
    ensures Recalculated6(v).body == v.body && Recalculated6(v).protocol == UpperLayer(v.body).protocol
  {
    var u := UpperLayer(v.body);
    StopsFragmented(v.body, v.body[6], BASE_HEADER, false, MAX_HEADERS);
    FieldPlaces(u.protocol, |v.body| - u.offset);
  }

  lemma FragmentPlaces6(v: View, rest: seq<byte>)
    requires Ready(v) && v.isIPv6 && Repairable6(v) && UpperLayer(v.body).fragmented && |rest| < 0x1_0000_0000 - MAX_PACKET_BODY
    requires Verifies(Total6(v.originalSrc, v.originalDst, UpperLayer(v.body).protocol, v.body[UpperLayer(v.body).offset..] + rest))
    ensures var r, u := Recalculated6(v), UpperLayer(v.body);
            Verifies(Total6(v.body[8..24], v.body[24..40], u.protocol, r.body[u.offset..] + rest))
  {
    var u := UpperLayer(v.body);
    FieldPlaces(u.protocol, |v.body| - u.offset);
    AdjustSegmentVerifies(v, u.offset, ChecksumField(u.protocol, true).value, u.protocol, rest);
    AdjustedFragment(v);
  }

  // ---- The header chain --------------------------------------------------------------------------------

  /**
   One look at the chain in the numbers of RFC 8200: 0 and 60 are option headers of 8 bytes and 8 more
   for each their second byte counts; 44 is a fragment header, a later fragment when the 13-bit offset
   in its bytes 2 and 3 is not zero; 43, 50, 51 and 59 end the walk without an answer; anything else is
   the upper layer.
   */
  lemma LookPlaces(p: seq<byte>, next: byte, offset: nat, fragmented: bool)
    requires offset + 8 <= |p|
    ensures var l := LookAt(p, next, offset, fragmented);
            if next == 0 || next == 60 then
              var end := offset + 8 + 8 * (p[offset + 1] as int);
              if end <= |p| then l == Go(p[offset], end, fragmented) else l.Stop? && !l.answer.ok
            else if next == 44 then
              if p[offset + 2] == 0 && p[offset + 3] < 8 then l == Go(p[offset], offset + 8, true)
              else l == Stop(Upper(p[offset], offset + 8, true, false, true))
            else if next == 43 || next == 50 || next == 51 || next == 59 then l.Stop? && !l.answer.ok
            else l == Stop(Upper(next, offset, fragmented, true, true))
  {
  }

  /** Where it starts, and how many headers it looks at. */
  lemma ChainPlaces(p: seq<byte>)
    ensures |p| < 40 ==> !UpperLayer(p).ok
    ensures |p| >= 40 ==> UpperLayer(p) == Walk(p, p[6], 40, false, 16)
  {
  }
}

/** The in-place Packet of vpn/packet.go: one buffer whose body bytes are parsed, rewritten and repaired. */
module PacketBuffer {
  import opened Wrappers
  import opened Bytes
  import opened Checksum
  import opened HeaderChain
  import opened PacketView

  class Packet {
    const buffer: array<byte>
    var size: nat
    var hasAddrs: bool
    var isIPv6: bool
    var protocol: byte
    var dir: Direction
    var originalSrc: Addr6
    var originalDst: Addr6
    var originalValid: bool

    ghost predicate Valid()
      reads this
    {
      buffer.Length == MAX_CONTENT_SIZE && size <= MAX_PACKET_BODY
    }

    ghost function Body(): (s: seq<byte>)
      reads this, buffer
      requires Valid()
      ensures |s| == size
    {
      buffer[TUN_PACKET_OFFSET..TUN_PACKET_OFFSET + size]
    }

    ghost function Value(): View
      reads this, buffer
      requires Valid()
    {
      View(Body(), hasAddrs, isIPv6, protocol, dir, originalSrc, originalDst, originalValid)
    }

    constructor ()
      ensures Valid() && fresh(buffer)
      ensures size == 0 && !hasAddrs && !originalValid && dir == Peer
    {
      buffer := new byte[MAX_CONTENT_SIZE](_ => 0);
      size, hasAddrs, isIPv6, protocol, dir := 0, false, false, 0, Peer;
      originalSrc, originalDst, originalValid := seq(16, _ => 0), seq(16, _ => 0), false;
    }

    method Clear()
      requires Valid()
      modifies this
      ensures Valid() && Value() == View([], false, false, 0, Peer, old(originalSrc), old(originalDst), false)
    {
      size, hasAddrs, isIPv6, protocol, dir, originalValid := 0, false, false, 0, Peer, false;
    }

    /** The copy has its own buffer: whatever is done to one packet afterwards leaves the other alone. */
    method CopyTo(copy: Packet)
      requires Valid() && copy.Valid() && copy != this && copy.buffer != buffer
      modifies copy, copy.buffer
      ensures copy.Valid() && copy.Value() == Value() && Value() == old(Value())
    {
      forall i | 0 <= i < MAX_CONTENT_SIZE { copy.buffer[i] := buffer[i]; }
      copy.size, copy.hasAddrs, copy.isIPv6, copy.protocol, copy.dir := size, hasAddrs, isIPv6, protocol, dir;
      copy.originalSrc, copy.originalDst, copy.originalValid := originalSrc, originalDst, originalValid;
      assert copy.Body() == Body();
    }

    method RememberAddrs()
      requires Valid()
      modifies this
      ensures Valid() && Value() == Remember(old(Value()))
    {
      if !isIPv6 || !hasAddrs || size < HEADER_LEN_6 {
        originalValid := false;
        return;
      }
      originalSrc := Slice(8, 24);
      originalDst := Slice(24, 40);
      originalValid := true;
    }

    method Parse() returns (ok: bool)
      requires Valid()
      modifies this
      ensures Valid()
      ensures ok <==> IsIPv4(old(Body())) || IsIPv6(old(Body()))
      ensures Value() == if ok then Parsed(old(Value())) else old(Value()).(originalValid := false)
    {
      originalValid := false;
      if size == 0 {
        return false;
      }
      var first := buffer[TUN_PACKET_OFFSET];
      assert first == Body()[0];
      var version := first / 0x10;
      if version == 4 {
        if size < HEADER_LEN_4 {
          return false;
        }
        var headerLen := (first as int) % 0x10 * 4;
        if headerLen < HEADER_LEN_4 || headerLen > size {
          return false;
        }
        protocol := buffer[TUN_PACKET_OFFSET + 9];
        isIPv6, hasAddrs := false, true;
        return true;
      } else if version == 6 {
        if size < HEADER_LEN_6 {
          return false;
        }
        isIPv6, hasAddrs := true, true;
        RememberAddrs();
        protocol := buffer[TUN_PACKET_OFFSET + 6];
        return true;
      }
      return false;
    }

    /** `copy(packet.Src, ip)`. */
    method WriteSrc(ip: seq<byte>)
      requires Valid() && Ready(Value()) && |ip| == AddrLen(isIPv6)
      modifies buffer
      ensures Valid() && Value() == SetSrc(old(Value()), ip)
    {
      WriteField(SrcOffset(isIPv6), ip);
    }

    /** `copy(packet.Dst, ip)`. */
    method WriteDst(ip: seq<byte>)
      requires Valid() && Ready(Value()) && |ip| == AddrLen(isIPv6)
      modifies buffer
      ensures Valid() && Value() == SetDst(old(Value()), ip)
    {
      WriteField(DstOffset(isIPv6), ip);
    }

    method WriteField(off: nat, field: seq<byte>)
      requires Valid() && off + |field| <= size
      modifies buffer
      ensures Body() == Overwrite(old(Body()), off, field)
    {
      ghost var was := Body();
      var i := 0;
      while i < |field|
        invariant 0 <= i <= |field|
        invariant forall k :: 0 <= k < size ==>
                    Body()[k] == if off <= k < off + i then field[k - off] else was[k]
      {
        buffer[TUN_PACKET_OFFSET + off + i] := field[i];
        i := i + 1;
      }
      assert Body() == Overwrite(was, off, field);
    }

    method WriteWord(off: nat, w: uint16)
      requires Valid() && off + 2 <= size
      modifies buffer
      ensures Body() == PutWord(old(Body()), off, w)
    {
      buffer[TUN_PACKET_OFFSET + off] := w / 0x100;
      buffer[TUN_PACKET_OFFSET + off + 1] := w % 0x100;
    }

    /** Body bytes `from..to`, as a slice of the buffer. */
    method Slice(from: nat, to: nat) returns (s: seq<byte>)
      requires Valid() && from <= to <= size
      ensures s == Body()[from..to]
    {
      s := buffer[TUN_PACKET_OFFSET + from..TUN_PACKET_OFFSET + to];
      assert forall i :: 0 <= i < to - from ==> s[i] == Body()[from + i];
    }

    method RecalculateChecksum()
      requires Valid() && Ready(Value())
      modifies this, buffer
      ensures Valid() && Value() == Recalculated(old(Value()))
    {
      if isIPv6 {
        RecalculateChecksum6();
        return;
      }
      var head := Slice(0, HEADER_LEN_4);
      assert head[0] == Body()[0] && head[9] == Body()[9];
      var headerLen := (head[0] as int) % 0x10 * 4;
      if headerLen < HEADER_LEN_4 || headerLen > size {
        return;
      }
      RepairHeader(headerLen);
      if head[9] == TCP {
        if size < headerLen + 18 { return; }
        RepairTransport4(headerLen, 16, TCP);
      } else if head[9] == UDP {
        if size < headerLen + 8 { return; }
        RepairTransport4(headerLen, 6, UDP);
      }
    }

    method RepairHeader(headerLen: nat)
      requires Valid() && HEADER_LEN_4 <= headerLen <= size
      modifies buffer
      ensures Body() == RepairHeader4(old(Body()), headerLen)
    {
      WriteWord(CHECKSUM_OFFSET_4, 0);
      var header := Slice(0, headerLen);
      assert header == Body()[..headerLen];
      var checksum := ChecksumIPv4Header(header);
      WriteWord(CHECKSUM_OFFSET_4, checksum);
    }

    method RepairTransport4(headerLen: nat, field: nat, protocol: byte)
      requires Valid() && HEADER_LEN_4 <= headerLen && headerLen + field + 2 <= size
      modifies buffer
      ensures Body() == RepairSegment4(old(Body()), headerLen, field, protocol)
    {
      ghost var was := Body();
      WriteWord(headerLen + field, 0);
      var src := Slice(12, 16);
      var dst := Slice(16, 20);
      var segment := Slice(headerLen, size);
      assert src == was[12..16] && dst == was[16..20] && segment == Body()[headerLen..];
      var checksum := ChecksumIPv4TCPUDP(segment, protocol, src, dst);
      WriteWord(headerLen + field, checksum);
    }

    method RecalculateChecksum6()
      requires Valid() && Ready(Value()) && isIPv6
      modifies this, buffer
      ensures Valid() && Value() == Recalculated6(old(Value()))
    {
      var body := Slice(0, size);
      assert body == Body();
      var upper, offset, fragmented, firstFragment, ok := Ipv6UpperLayer(body);
      if !ok {
        return;
      }
      protocol := upper;
      if fragmented {
        RecalculateFragment(upper, offset, firstFragment);
      } else {
        RecalculateWhole(upper, offset);
      }
    }

    /** The unfragmented branch. */
    method RecalculateWhole(upper: byte, offset: nat)
      requires Valid() && Ready(Value()) && isIPv6 && HEADER_LEN_6 <= offset <= size
      modifies this, buffer
      ensures Valid()
      ensures var field := ChecksumField(upper, true);
              Value() ==
              if field.None? then Remember(old(Value()))
              else if old(size) < offset + field.value + 2 then old(Value())
              else Remember(old(Value()).(body := RepairSegment6(old(Body()), offset, field.value, upper)))
    {
      if upper == TCP {
        if size < offset + 18 { return; }
        RepairTransport6(offset, 16, TCP);
      } else if upper == UDP {
        if size < offset + 8 { return; }
        RepairTransport6(offset, 6, UDP);
      } else if upper == ICMPV6 {
        if size < offset + 4 { return; }
        RepairTransport6(offset, 2, ICMPV6);
      }
      RememberAddrs();
    }

    /** The fragmented branch: only a first fragment of known origin has a checksum that can be adjusted. */
    method RecalculateFragment(upper: byte, offset: nat, firstFragment: bool)
      requires Valid() && Ready(Value()) && isIPv6 && HEADER_LEN_6 <= offset <= size
      modifies this, buffer
      ensures Valid()
      ensures var field := ChecksumField(upper, true);
              Value() ==
              if !firstFragment || !old(originalValid) || field.None? || old(size) < offset + field.value + 2
              then Remember(old(Value()))
              else Remember(old(Value()).(body := AdjustSegment6(old(Value()), offset, field.value, upper)))
    {
      if !firstFragment || !originalValid {
        RememberAddrs();
        return;
      }
      var field: nat;
      if upper == TCP {
        field := 16;
      } else if upper == UDP {
        field := 6;
      } else if upper == ICMPV6 {
        field := 2;
      } else {
        RememberAddrs();
        return;
      }
      if size < offset + field + 2 {
        RememberAddrs();
        return;
      }
      AdjustTransport6(offset, field, upper);
      RememberAddrs();
    }

    method AdjustTransport6(offset: nat, field: nat, upper: byte)
      requires Valid() && HEADER_LEN_6 <= offset && offset + field + 2 <= size
      modifies buffer
      ensures Body() == AdjustSegment6(old(Value()), offset, field, upper)
    {
      var transport := Slice(offset, size);
      var src := Slice(8, 24);
      var dst := Slice(24, 40);
      var oldChecksum := Word(transport, field);
      assert oldChecksum == Word(Body(), offset + field);
      var newChecksum := AdjustIPv6PseudoHeaderChecksum(oldChecksum, originalSrc, originalDst, src, dst);
      if upper == UDP && newChecksum == 0 {
        newChecksum := 0xffff;
      }
      WriteWord(offset + field, newChecksum);
    }

    method RepairTransport6(offset: nat, field: nat, upper: byte)
      requires Valid() && HEADER_LEN_6 <= offset && offset + field + 2 <= size
      modifies buffer
      ensures Body() == RepairSegment6(old(Body()), offset, field, upper)
    {
      ghost var was := Body();
      WriteWord(offset + field, 0);
      var src := Slice(8, 24);
      var dst := Slice(24, 40);
      var segment := Slice(offset, size);
      assert src == was[8..24] && dst == was[24..40] && segment == Body()[offset..];
      var checksum := ChecksumIPv6TCPUDP(segment, upper, src, dst);
      if upper == UDP && checksum == 0 {
        checksum := 0xffff;
      }
      WriteWord(offset + field, checksum);
    }
  }
}

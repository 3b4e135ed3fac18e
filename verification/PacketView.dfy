/**
 An IP packet as a value: where its addresses sit, and what RecalculateChecksum of vpn/packet.go
 makes of it.  `PacketBuffer` proves the in-place methods against these functions.
 */
module PacketView {
  import opened Wrappers
  import opened Bytes
  import opened Checksum
  import opened HeaderChain

  const INTERFACE_MTU := 3500
  const MAX_CONTENT_SIZE := INTERFACE_MTU + 100
  const TUN_PACKET_OFFSET := 14
  const MAX_PACKET_BODY := MAX_CONTENT_SIZE - TUN_PACKET_OFFSET

  const HEADER_LEN_4 := 20
  const HEADER_LEN_6 := 40
  const CHECKSUM_OFFSET_4 := 10

  /** The direction tag of a tunnel packet (GatewayDir). */
  datatype Direction = Peer | Forward | Return

  datatype View = View(
    body: seq<byte>,
    hasAddrs: bool,
    isIPv6: bool,
    protocol: byte,
    dir: Direction,
    originalSrc: Addr6,
    originalDst: Addr6,
    originalValid: bool)

  // ---- Addresses -------------------------------------------------------------------------------

  function SrcOffset(isIPv6: bool): nat { if isIPv6 then 8 else 12 }

  function DstOffset(isIPv6: bool): nat { if isIPv6 then 24 else 16 }

  function AddrLen(isIPv6: bool): nat { if isIPv6 then 16 else 4 }

  function HeaderLen(isIPv6: bool): nat { if isIPv6 then HEADER_LEN_6 else HEADER_LEN_4 }

  /** The packet's addresses are set and its fixed header is present, as Parse leaves it. */
  predicate Ready(v: View) {
    v.hasAddrs && HeaderLen(v.isIPv6) <= |v.body| <= MAX_PACKET_BODY
  }

  function Src(v: View): (a: seq<byte>)
    requires Ready(v)
    ensures |a| == AddrLen(v.isIPv6)
  {
    v.body[SrcOffset(v.isIPv6)..SrcOffset(v.isIPv6) + AddrLen(v.isIPv6)]
  }

  function Dst(v: View): (a: seq<byte>)
    requires Ready(v)
    ensures |a| == AddrLen(v.isIPv6)
  {
    v.body[DstOffset(v.isIPv6)..DstOffset(v.isIPv6) + AddrLen(v.isIPv6)]
  }

  function SetSrc(v: View, ip: seq<byte>): (r: View)
    requires Ready(v) && |ip| == AddrLen(v.isIPv6)
    ensures Ready(r) && Src(r) == ip && Dst(r) == Dst(v) && r.dir == v.dir
  {
    var body := Overwrite(v.body, SrcOffset(v.isIPv6), ip);
    assert body[DstOffset(v.isIPv6)..DstOffset(v.isIPv6) + AddrLen(v.isIPv6)] == Dst(v);
    v.(body := body)
  }

  function SetDst(v: View, ip: seq<byte>): (r: View)
    requires Ready(v) && |ip| == AddrLen(v.isIPv6)
    ensures Ready(r) && Dst(r) == ip && Src(r) == Src(v) && r.dir == v.dir
  {
    var body := Overwrite(v.body, DstOffset(v.isIPv6), ip);
    assert body[SrcOffset(v.isIPv6)..SrcOffset(v.isIPv6) + AddrLen(v.isIPv6)] == Src(v);
    v.(body := body)
  }

  // ---- Parse -----------------------------------------------------------------------------------

  function IPv4HeaderLen(body: seq<byte>): nat
    requires |body| > 0
  {
    (body[0] as int) % 0x10 * 4
  }

  predicate IsIPv4(body: seq<byte>) {
    && |body| >= HEADER_LEN_4 && body[0] / 0x10 == 4
    && HEADER_LEN_4 <= IPv4HeaderLen(body) <= |body|
  }

  predicate IsIPv6(body: seq<byte>) {
    |body| >= HEADER_LEN_6 && body[0] / 0x10 == 6
  }

  function Remember(v: View): View {
    if !v.isIPv6 || !v.hasAddrs || |v.body| < HEADER_LEN_6 then v.(originalValid := false)
    else v.(originalSrc := v.body[8..24], originalDst := v.body[24..40], originalValid := true)
  }

  /** Parse on success; a failing Parse only drops the remembered addresses. */
  function Parsed(v: View): View
    requires IsIPv4(v.body) || IsIPv6(v.body)
  {
    if IsIPv4(v.body) then
      v.(hasAddrs := true, isIPv6 := false, protocol := v.body[9], originalValid := false)
    else
      Remember(v.(hasAddrs := true, isIPv6 := true, protocol := v.body[6], originalValid := false))
  }

  // ---- RecalculateChecksum -----------------------------------------------------------------------

  /** Where the checksum sits in a transport header, for the protocols awl repairs. */
  function ChecksumField(protocol: byte, isIPv6: bool): Option<nat> {
    if protocol == TCP then Some(16)
    else if protocol == UDP then Some(6)
    else if protocol == ICMPV6 && isIPv6 then Some(2)
    else None
  }

  function RepairHeader4(body: seq<byte>, headerLen: nat): (r: seq<byte>)
    requires HEADER_LEN_4 <= headerLen <= |body|
    ensures |r| == |body|
  {
    var zeroed := PutWord(body, CHECKSUM_OFFSET_4, 0);
    PutWord(zeroed, CHECKSUM_OFFSET_4, Complement(Fold(WordSum(zeroed[..headerLen]))))
  }

  function RepairSegment4(body: seq<byte>, headerLen: nat, field: nat, protocol: byte): (r: seq<byte>)
    requires HEADER_LEN_4 <= headerLen && headerLen + field + 2 <= |body| <= MAX_PACKET_BODY
    ensures |r| == |body|
  {
    var zeroed := PutWord(body, headerLen + field, 0);
    PutWord(zeroed, headerLen + field,
            Complement(Fold(Total4(body[12..16], body[16..20], protocol, zeroed[headerLen..]))))
  }

  function Recalculated4(body: seq<byte>): (r: seq<byte>)
    requires HEADER_LEN_4 <= |body| <= MAX_PACKET_BODY
    ensures |r| == |body|
  {
    var headerLen := IPv4HeaderLen(body);
    if headerLen < HEADER_LEN_4 || headerLen > |body| then body
    else
      var repaired := RepairHeader4(body, headerLen);
      match ChecksumField(body[9], false)
      case None => repaired
      case Some(field) =>
        if |body| < headerLen + field + 2 then repaired
        else RepairSegment4(repaired, headerLen, field, body[9])
  }

  /** Over IPv6 a UDP checksum that comes out as 0 goes out in its other spelling. */
  function Transmitted6(protocol: byte, checksum: uint16): (r: uint16)
    ensures r % 0xffff == checksum % 0xffff
  {
    if protocol == UDP && checksum == 0 then 0xffff else checksum
  }

  function RepairSegment6(body: seq<byte>, offset: nat, field: nat, protocol: byte): (r: seq<byte>)
    requires HEADER_LEN_6 <= offset && offset + field + 2 <= |body| <= MAX_PACKET_BODY
    ensures |r| == |body|
  {
    var zeroed := PutWord(body, offset + field, 0);
    var checksum := Complement(Fold(Total6(body[8..24], body[24..40], protocol, zeroed[offset..])));
    PutWord(zeroed, offset + field, Transmitted6(protocol, checksum))
  }

  function AdjustSegment6(v: View, offset: nat, field: nat, protocol: byte): (r: seq<byte>)
    requires HEADER_LEN_6 <= offset && offset + field + 2 <= |v.body| <= MAX_PACKET_BODY
    ensures |r| == |v.body|
  {
    var checksum :=
      Adjust(Word(v.body, offset + field), v.originalSrc, v.originalDst, v.body[8..24], v.body[24..40]);
    PutWord(v.body, offset + field, Transmitted6(protocol, checksum))
  }

  function Recalculated6(v: View): (r: View)
    requires Ready(v) && v.isIPv6
    ensures Ready(r) && |r.body| == |v.body| && r.isIPv6 && r.dir == v.dir
  {
    var u := UpperLayer(v.body);
    if !u.ok then v
    else
      var known := v.(protocol := u.protocol);
      var field := ChecksumField(u.protocol, true);
      if u.fragmented then
        if !u.firstFragment || !v.originalValid || field.None? || |v.body| < u.offset + field.value + 2
        then Remember(known)
        else Remember(known.(body := AdjustSegment6(v, u.offset, field.value, u.protocol)))
      else if field.None? then Remember(known)
      else if |v.body| < u.offset + field.value + 2 then known
      else Remember(known.(body := RepairSegment6(v.body, u.offset, field.value, u.protocol)))
  }

  function Recalculated(v: View): (r: View)
    requires Ready(v)
    ensures Ready(r) && |r.body| == |v.body| && r.isIPv6 == v.isIPv6 && r.dir == v.dir
  {
    if v.isIPv6 then Recalculated6(v) else v.(body := Recalculated4(v.body))
  }
}

/** What rewriting addresses and repairing checksums guarantees of a packet. */
module PacketTheorems {
  import opened Wrappers
  import opened Bytes
  import opened Checksum
  import opened HeaderChain
  import opened PacketView

  // ---- Slices of a string whose word was replaced -----------------------------------------------

  lemma PutWordInSuffix(s: seq<byte>, from: nat, off: nat, w: uint16)
    requires from + off + 2 <= |s|
    ensures PutWord(s, from + off, w)[from..] == PutWord(s[from..], off, w)
    ensures PutWord(s, from + off, w)[..from] == s[..from]
    ensures Word(s, from + off) == Word(s[from..], off)
  {
  }

  lemma PutWordInPrefix(s: seq<byte>, to: nat, off: nat, w: uint16)
    requires off + 2 <= to <= |s|
    ensures PutWord(s, off, w)[..to] == PutWord(s[..to], off, w)
    ensures PutWord(s, off, w)[to..] == s[to..]
  {
  }

  lemma SameField(s: seq<byte>, t: seq<byte>, from: nat, to: nat)
    requires from <= to <= |s| == |t|
    requires forall i :: from <= i < to ==> s[i] == t[i]
    ensures s[from..to] == t[from..to]
  {
  }

  // ---- IPv4 ------------------------------------------------------------------------------------------

  /** The transport segment of an IPv4 packet that awl repairs: a known protocol with a whole checksum field. */
  predicate HasSegment4(body: seq<byte>) {
    && IsIPv4(body)
    && ChecksumField(body[9], false).Some?
    && IPv4HeaderLen(body) + ChecksumField(body[9], false).value + 2 <= |body|
  }

  /** Bytes of an IPv4 packet that a repair may change. */
  predicate ChecksumByte4(body: seq<byte>, i: nat)
    requires IsIPv4(body)
  {
    || i == CHECKSUM_OFFSET_4 || i == CHECKSUM_OFFSET_4 + 1
    || (HasSegment4(body) &&
        var at := IPv4HeaderLen(body) + ChecksumField(body[9], false).value; i == at || i == at + 1)
  }

  lemma RepairHeaderVerifies(body: seq<byte>)
    requires IsIPv4(body)
    ensures var r := RepairHeader4(body, IPv4HeaderLen(body));
            && Verifies(WordSum(r[..IPv4HeaderLen(body)]))
            && forall i :: 0 <= i < |body| && i != 10 && i != 11 ==> r[i] == body[i]
  {
    var n := IPv4HeaderLen(body);
    var header := body[..n];
    PutWordInPrefix(body, n, CHECKSUM_OFFSET_4, 0);
    var zeroed := PutWord(body, CHECKSUM_OFFSET_4, 0);
    PutWordInPrefix(zeroed, n, CHECKSUM_OFFSET_4, Complement(Fold(WordSum(zeroed[..n]))));
    HeaderVerifies(header, CHECKSUM_OFFSET_4);
  }

  lemma RepairSegmentVerifies4(body: seq<byte>, n: nat, field: nat, protocol: byte)
    requires HEADER_LEN_4 <= n && n + field + 2 <= |body| <= MAX_PACKET_BODY && field % 2 == 0 && protocol > 0
    ensures var r := RepairSegment4(body, n, field, protocol);
            && Verifies(Total4(r[12..16], r[16..20], protocol, r[n..]))
            && r[..n] == body[..n]
            && forall i :: 0 <= i < |body| && i != n + field && i != n + field + 1 ==> r[i] == body[i]
  {
    var r := RepairSegment4(body, n, field, protocol);
    var zeroed := PutWord(body, n + field, 0);
    PutWordInSuffix(body, n, field, 0);
    PutWordInSuffix(zeroed, n, field, Complement(Fold(Total4(body[12..16], body[16..20], protocol, zeroed[n..]))));
    RecomputeVerifies4(body[12..16], body[16..20], protocol, body[n..], field);
    SameField(r, body, 12, 16);
    SameField(r, body, 16, 20);
  }

  /**
   Full recompute over IPv4: afterwards the header sum and, when there is one, the sum over
   pseudo-header and segment fold to 0xffff, and no byte outside the two checksum fields moved.
   */
  lemma RecalculateVerifies4(body: seq<byte>)
    requires IsIPv4(body) && |body| <= MAX_PACKET_BODY
    ensures var r := Recalculated4(body);
            && (forall i :: 0 <= i < |body| && !ChecksumByte4(body, i) ==> r[i] == body[i])
            && Verifies(WordSum(r[..IPv4HeaderLen(body)]))
            && (HasSegment4(body) ==> Verifies(Total4(r[12..16], r[16..20], body[9], r[IPv4HeaderLen(body)..])))
  {
    RepairHeaderVerifies(body);
    if HasSegment4(body) {
      RepairSegmentVerifies4(RepairHeader4(body, IPv4HeaderLen(body)), IPv4HeaderLen(body),
                             ChecksumField(body[9], false).value, body[9]);
    }
  }

  /** The total a repair of the segment is computed from. */
  function Zeroed4(body: seq<byte>): nat
    requires HasSegment4(body) && |body| <= MAX_PACKET_BODY
  {
    var n := IPv4HeaderLen(body);
    Total4(body[12..16], body[16..20], body[9], PutWord(body[n..], ChecksumField(body[9], false).value, 0))
  }

  /**
   The field is written as 0, which RFC 768 reads in a UDP datagram as "no checksum", exactly when
   the total without it is a multiple of 0xffff.
   */
  lemma ZeroField4(body: seq<byte>)
    requires HasSegment4(body) && |body| <= MAX_PACKET_BODY
    ensures Word(Recalculated4(body), IPv4HeaderLen(body) + ChecksumField(body[9], false).value) == 0
            <==> Zeroed4(body) % 0xffff == 0
  {
    var n, field := IPv4HeaderLen(body), ChecksumField(body[9], false).value;
    var h := RepairHeader4(body, n);
    RepairHeaderVerifies(body);
    SameField(h, body, 12, 16);
    SameField(h, body, 16, 20);
    SameField(h, body, n, |body|);
    assert h[n..] == body[n..];
    RepairedField4(h, n, field, body[9]);
    Total4Sum(body[12..16], body[16..20], body[9], PutWord(body[n..], field, 0));
    ComplementZero(Zeroed4(body));
  }

  lemma RepairedField4(body: seq<byte>, n: nat, field: nat, protocol: byte)
    requires HEADER_LEN_4 <= n && n + field + 2 <= |body| <= MAX_PACKET_BODY
    ensures Word(RepairSegment4(body, n, field, protocol), n + field)
         == Complement(Fold(Total4(body[12..16], body[16..20], protocol, PutWord(body[n..], field, 0))))
  {
    PutWordInSuffix(body, n, field, 0);
  }

  lemma ComplementZero(total: nat)
    requires total > 0
    ensures Complement(Fold(total)) == 0 <==> total % 0xffff == 0
  {
    FoldMod(total);
  }

  /** It happens: a UDP datagram from 10.66.0.1 to 10.66.0.2 whose words add up that way. */
  lemma ZeroUdp4() returns (body: seq<byte>)
    ensures HasSegment4(body) && body[9] == UDP && |body| == 28 && Word(Recalculated4(body), 26) == 0
  {
    var src, dst, udp: seq<byte> := [10, 66, 0, 1], [10, 66, 0, 2], [0xeb, 0x57, 0, 0, 0, 8, 0, 0];
    var head: seq<byte> := [0x45, 0, 0, 28, 0, 0, 0, 0, 64, 17, 0, 0];
    body := head + src + dst + udp;
    assert body[0] == head[0] && body[9] == head[9];
    PartsOf(head, src, dst, udp);
    AddsUp(src, dst, udp);
    ZeroField4(body);
  }

  lemma PartsOf(head: seq<byte>, src: seq<byte>, dst: seq<byte>, udp: seq<byte>)
    requires |head| == 12 && |src| == 4 && |dst| == 4
    ensures var body := head + src + dst + udp; body[12..16] == src && body[16..20] == dst && body[20..] == udp
  {
  }

  lemma AddsUp(src: Addr4, dst: Addr4, udp: seq<byte>)
    requires src == [10, 66, 0, 1] && dst == [10, 66, 0, 2] && udp == [0xeb, 0x57, 0, 0, 0, 8, 0, 0]
    ensures Total4(src, dst, UDP, PutWord(udp, 6, 0)) == 0xffff
  {
    assert PutWord(udp, 6, 0) == udp;
    Total4Sum(src, dst, UDP, udp);
    SumOf4(src);
    SumOf4(dst);
    SumOf8(udp);
  }

  // ---- IPv6 ------------------------------------------------------------------------------------------

  /** The packet carries a repairable checksum: a known protocol whose field lies within the packet. */
  predicate HasSegment6(body: seq<byte>) {
    var u := UpperLayer(body);
    && u.ok && u.firstFragment
    && ChecksumField(u.protocol, true).Some?
    && u.offset + ChecksumField(u.protocol, true).value + 2 <= |body|
  }

  function FieldAt6(body: seq<byte>): nat
    requires HasSegment6(body)
  {
    UpperLayer(body).offset + ChecksumField(UpperLayer(body).protocol, true).value
  }

  function Segment6(body: seq<byte>): seq<byte>
    requires HasSegment6(body)
  {
    body[UpperLayer(body).offset..]
  }

  /** The checksum verifies for the packet's current addresses once `rest` completes the datagram. */
  predicate VerifiesWith(v: View, rest: seq<byte>)
    requires Ready(v) && v.isIPv6 && HasSegment6(v.body) && |rest| < 0x1_0000_0000 - MAX_PACKET_BODY
  {
    Verifies(Total6(Src(v), Dst(v), UpperLayer(v.body).protocol, Segment6(v.body) + rest))
  }

  /** Two packets with the same headers beyond the addresses are walked alike. */
  lemma SameHeaders(p: seq<byte>, q: seq<byte>)
    requires HasSegment6(p) && |p| == |q|
    requires p[6] == q[6] && forall i :: HEADER_LEN_6 <= i < FieldAt6(p) ==> p[i] == q[i]
    ensures UpperLayer(q) == UpperLayer(p) && HasSegment6(q) && FieldAt6(q) == FieldAt6(p)
  {
    UpperLayerLocal(p, q);
  }

  lemma RepairSegmentVerifies6(body: seq<byte>, offset: nat, field: nat, protocol: byte)
    requires HEADER_LEN_6 <= offset && offset + field + 2 <= |body| <= MAX_PACKET_BODY && field % 2 == 0 && protocol > 0
    ensures var r := RepairSegment6(body, offset, field, protocol);
            && Verifies(Total6(body[8..24], body[24..40], protocol, r[offset..]))
            && forall i :: 0 <= i < |body| && i != offset + field && i != offset + field + 1 ==> r[i] == body[i]
  {
    var zeroed := PutWord(body, offset + field, 0);
    var checksum := Complement(Fold(Total6(body[8..24], body[24..40], protocol, zeroed[offset..])));
    PutWordInSuffix(body, offset, field, 0);
    PutWordInSuffix(zeroed, offset, field, Transmitted6(protocol, checksum));
    RecomputeVerifies6(body[8..24], body[24..40], protocol, body[offset..], field, Transmitted6(protocol, checksum));
  }

  /** Full recompute over IPv6, for every packet seen whole. */
  lemma RecalculateVerifies6(v: View)
    requires Ready(v) && v.isIPv6 && HasSegment6(v.body) && !UpperLayer(v.body).fragmented
    ensures var r := Recalculated6(v);
            && (forall i :: 0 <= i < |v.body| && i != FieldAt6(v.body) && i != FieldAt6(v.body) + 1 ==> r.body[i] == v.body[i])
            && Src(r) == Src(v) && Dst(r) == Dst(v)
            && HasSegment6(r.body) && UpperLayer(r.body) == UpperLayer(v.body) && VerifiesWith(r, [])
  {
    var u, r := UpperLayer(v.body), Recalculated6(v);
    var field := ChecksumField(u.protocol, true).value;
    assert field == 16 || field == 6 || field == 2;
    RepairSegmentVerifies6(v.body, u.offset, field, u.protocol);
    SameField(r.body, v.body, 8, 24);
    SameField(r.body, v.body, 24, 40);
    SameHeaders(v.body, r.body);
    assert Segment6(r.body) + [] == Segment6(r.body);
  }

  /** Over IPv6 a repaired UDP field is never 0. */
  lemma NoZeroUdp6(v: View)
    requires Ready(v) && v.isIPv6 && HasSegment6(v.body) && UpperLayer(v.body).protocol == UDP
    requires UpperLayer(v.body).fragmented ==> v.originalValid
    ensures Word(Recalculated6(v).body, FieldAt6(v.body)) != 0
  {
  }

  /** The packet remembers the addresses it currently carries, as Parse and every repair leave it. */
  predicate RemembersCurrent(v: View)
    requires Ready(v) && v.isIPv6
  {
    v.originalValid && v.originalSrc == Src(v) && v.originalDst == Dst(v)
  }

  /** What happens to a packet between two repairs: either address may be replaced. */
  datatype Rewrite = Rewrite(src: Option<Addr6>, dst: Option<Addr6>)

  function Rewritten(v: View, w: Rewrite): (r: View)
    requires Ready(v) && v.isIPv6
    ensures Ready(r) && r.isIPv6 && |r.body| == |v.body|
    ensures Src(r) == (if w.src.Some? then w.src.value else Src(v))
    ensures Dst(r) == (if w.dst.Some? then w.dst.value else Dst(v))
    ensures r == v.(body := r.body) && forall i :: 0 <= i < |v.body| && !(8 <= i < 40) ==> r.body[i] == v.body[i]
  {
    var v1 := if w.src.Some? then SetSrc(v, w.src.value) else v;
    if w.dst.Some? then SetDst(v1, w.dst.value) else v1
  }

  lemma AdjustSegmentVerifies(n: View, offset: nat, field: nat, protocol: byte, rest: seq<byte>)
    requires HEADER_LEN_6 <= offset && offset + field + 2 <= |n.body| <= MAX_PACKET_BODY && field % 2 == 0 && protocol > 0
    requires |rest| < 0x1_0000_0000 - MAX_PACKET_BODY
    requires Verifies(Total6(n.originalSrc, n.originalDst, protocol, n.body[offset..] + rest))
    ensures var r := AdjustSegment6(n, offset, field, protocol);
            Verifies(Total6(n.body[8..24], n.body[24..40], protocol, r[offset..] + rest))
  {
    var checksum :=
      Adjust(Word(n.body, offset + field), n.originalSrc, n.originalDst, n.body[8..24], n.body[24..40]);
    var c := Transmitted6(protocol, checksum);
    var segment := n.body[offset..];
    PutWordInSuffix(n.body, offset, field, c);
    assert PutWord(segment + rest, field, c) == PutWord(segment, field, c) + rest;
    assert Word(segment + rest, field) == Word(segment, field);
    AdjustVerifies(n.originalSrc, n.originalDst, n.body[8..24], n.body[24..40], protocol, segment + rest, field, c);
  }

  lemma FirstFragmentStep(v: View, w: Rewrite, rest: seq<byte>)
    requires Ready(v) && v.isIPv6 && HasSegment6(v.body) && UpperLayer(v.body).fragmented
    requires |rest| < 0x1_0000_0000 - MAX_PACKET_BODY && RemembersCurrent(v) && VerifiesWith(v, rest)
    ensures var r := Recalculated6(Rewritten(v, w));
            && RemembersCurrent(r)
            && Src(r) == Src(Rewritten(v, w)) && Dst(r) == Dst(Rewritten(v, w))
            && HasSegment6(r.body) && UpperLayer(r.body) == UpperLayer(v.body) && VerifiesWith(r, rest)
  {
    var n, u := Rewritten(v, w), UpperLayer(v.body);
    SameHeaders(v.body, n.body);
    SameField(n.body, v.body, u.offset, |v.body|);
    assert Segment6(n.body) == Segment6(v.body);
    AdjustSegmentVerifies(n, u.offset, ChecksumField(u.protocol, true).value, u.protocol, rest);
    AdjustedFragment(n);
  }

  /** One rewrite and repair of a first fragment touches its addresses and its checksum field alone. */
  lemma FirstFragmentKeeps(v: View, w: Rewrite)
    requires Ready(v) && v.isIPv6 && v.originalValid && HasSegment6(v.body) && UpperLayer(v.body).fragmented
    ensures forall i :: 0 <= i < |v.body| && !(8 <= i < 40) && i != FieldAt6(v.body) && i != FieldAt6(v.body) + 1
              ==> Recalculated6(Rewritten(v, w)).body[i] == v.body[i]
  {
    var n := Rewritten(v, w);
    SameHeaders(v.body, n.body);
    AdjustedFragment(n);
  }

  /** A remembered first fragment is repaired by adjustment, which moves its checksum field alone. */
  lemma AdjustedFragment(n: View)
    requires Ready(n) && n.isIPv6 && n.originalValid && HasSegment6(n.body) && UpperLayer(n.body).fragmented
    ensures var r, u := Recalculated6(n), UpperLayer(n.body);
            && r.body == AdjustSegment6(n, u.offset, ChecksumField(u.protocol, true).value, u.protocol)
            && RemembersCurrent(r) && Src(r) == Src(n) && Dst(r) == Dst(n)
            && HasSegment6(r.body) && UpperLayer(r.body) == UpperLayer(n.body)
            && forall i :: 0 <= i < |n.body| && i != FieldAt6(n.body) && i != FieldAt6(n.body) + 1 ==> r.body[i] == n.body[i]
  {
    var r := Recalculated6(n);
    SameField(r.body, n.body, 8, 24);
    SameField(r.body, n.body, 24, 40);
    SameHeaders(n.body, r.body);
  }

  /** A packet after a run of rewrites, each followed by RecalculateChecksum. */
  function Run(v: View, ws: seq<Rewrite>): (r: View)
    requires Ready(v) && v.isIPv6
    ensures Ready(r) && r.isIPv6
    decreases |ws|
  {
    if ws == [] then v else Run(Recalculated6(Rewritten(v, ws[0])), ws[1..])
  }

  /**
   The checksum of a first fragment stays valid for the pair of addresses the packet carries, over
   every run of rewrites and whatever the fragments never seen by this node contain.
   */
  lemma {:induction false} FragmentRunVerifies(v: View, ws: seq<Rewrite>, rest: seq<byte>)
    requires Ready(v) && v.isIPv6 && HasSegment6(v.body) && UpperLayer(v.body).fragmented
    requires |rest| < 0x1_0000_0000 - MAX_PACKET_BODY && RemembersCurrent(v) && VerifiesWith(v, rest)
    ensures var r := Run(v, ws);
            HasSegment6(r.body) && UpperLayer(r.body) == UpperLayer(v.body) && RemembersCurrent(r) && VerifiesWith(r, rest)
    decreases |ws|
  {
    if ws != [] {
      FirstFragmentStep(v, ws[0], rest);
      FragmentRunVerifies(Recalculated6(Rewritten(v, ws[0])), ws[1..], rest);
    }
  }

  /** Parse establishes what the run needs: the remembered pair is the pair on the wire. */
  lemma ParseRemembers(v: View)
    requires IsIPv6(v.body) && |v.body| <= MAX_PACKET_BODY
    ensures var p := Parsed(v); Ready(p) && p.isIPv6 && p.body == v.body && RemembersCurrent(p)
  {
  }

  /** A later fragment holds no checksum, so a repair leaves its bytes alone. */
  lemma LaterFragmentUntouched(v: View)
    requires Ready(v) && v.isIPv6 && UpperLayer(v.body).ok && !UpperLayer(v.body).firstFragment
    ensures Recalculated6(v).body == v.body
  {
    StopsFragmented(v.body, v.body[6], BASE_HEADER, false, MAX_HEADERS);
  }

  lemma {:induction false} StopsFragmented(p: seq<byte>, next: byte, offset: nat, fragmented: bool, fuel: nat)
    requires offset <= |p|
    ensures var u := Walk(p, next, offset, fragmented, fuel); u.ok && !u.firstFragment ==> u.fragmented
    decreases fuel
  {
    if fuel > 0 {
      var l := LookAt(p, next, offset, fragmented);
      if l.Go? { StopsFragmented(p, l.next, l.offset, l.fragmented, fuel - 1); }
    }
  }

  // ---- Repairing twice ---------------------------------------------------------------------------

  /** A packet seen whole is left alone by a second repair. */
  lemma RecalculateIdempotent6(v: View)
    requires Ready(v) && v.isIPv6 && HasSegment6(v.body) && !UpperLayer(v.body).fragmented
    ensures Recalculated6(Recalculated6(v)).body == Recalculated6(v).body
  {
    var u, r := UpperLayer(v.body), Recalculated6(v);
    RecalculateVerifies6(v);
    var field := ChecksumField(u.protocol, true).value;
    RepairTwice6(v.body, u.offset, field, u.protocol);
    assert Recalculated6(r).body == RepairSegment6(r.body, u.offset, field, u.protocol);
  }

  lemma RepairTwice6(body: seq<byte>, offset: nat, field: nat, protocol: byte)
    requires HEADER_LEN_6 <= offset && offset + field + 2 <= |body| <= MAX_PACKET_BODY
    ensures var once := RepairSegment6(body, offset, field, protocol);
            RepairSegment6(once, offset, field, protocol) == once
  {
    var once := RepairSegment6(body, offset, field, protocol);
    assert PutWord(once, offset + field, 0) == PutWord(body, offset + field, 0);
  }

  lemma RecalculateIdempotent4(body: seq<byte>)
    requires IsIPv4(body) && |body| <= MAX_PACKET_BODY
    ensures Recalculated4(Recalculated4(body)) == Recalculated4(body)
  {
    var n, r := IPv4HeaderLen(body), Recalculated4(body);
    RecalculateVerifies4(body);
    var h := RepairHeader4(body, n);
    PutWordInPrefix(PutWord(body, CHECKSUM_OFFSET_4, 0), n, CHECKSUM_OFFSET_4, Word(h, CHECKSUM_OFFSET_4));
    assert PutWord(h, CHECKSUM_OFFSET_4, 0) == PutWord(body, CHECKSUM_OFFSET_4, 0);
    if HasSegment4(body) {
      SegmentRepairKeepsHeaderRepair(body, h, n, ChecksumField(body[9], false).value);
    }
  }

  lemma SegmentRepairKeepsHeaderRepair(body: seq<byte>, h: seq<byte>, n: nat, field: nat)
    requires IsIPv4(body) && n == IPv4HeaderLen(body) && n + field + 2 <= |body| <= MAX_PACKET_BODY && field % 2 == 0
    requires h == RepairHeader4(body, n) && body[9] > 0
    ensures var r := RepairSegment4(h, n, field, body[9]);
            RepairHeader4(r, n) == r && RepairSegment4(r, n, field, body[9]) == r
  {
    var r := RepairSegment4(h, n, field, body[9]);
    RepairSegmentVerifies4(h, n, field, body[9]);
    var zeroed := PutWord(body, CHECKSUM_OFFSET_4, 0);
    assert PutWord(r, CHECKSUM_OFFSET_4, 0)[..n] == zeroed[..n] by {
      assert r[..n] == h[..n];
      PutWordInPrefix(r, n, CHECKSUM_OFFSET_4, 0);
      PutWordInPrefix(h, n, CHECKSUM_OFFSET_4, 0);
      assert PutWord(h, CHECKSUM_OFFSET_4, 0) == zeroed;
    }
    assert Word(r, CHECKSUM_OFFSET_4) == Word(h, CHECKSUM_OFFSET_4);
    assert RepairHeader4(r, n) == r;
    assert PutWord(r, n + field, 0) == PutWord(h, n + field, 0);
    SameField(r, h, 12, 16);
    SameField(r, h, 16, 20);
  }

  /**
   A remembered first fragment is left alone by a second repair except when TCP or ICMPv6 falls on
   the degenerate exchange, where 0xffff turns into 0.
   */
  lemma FragmentIdempotent(v: View)
    requires Ready(v) && v.isIPv6 && v.originalValid && HasSegment6(v.body) && UpperLayer(v.body).fragmented
    ensures Recalculated6(Recalculated6(v)).body == Recalculated6(v).body
       <==> UpperLayer(v.body).protocol == UDP
            || !DegenerateExchange(Word(v.body, FieldAt6(v.body)), v.originalSrc, v.originalDst, Src(v), Dst(v))
  {
    var u, r, at := UpperLayer(v.body), Recalculated6(v), FieldAt6(v.body);
    AdjustedFragment(v);
    AdjustedFragment(r);
    var c := Word(r.body, at);
    AdjustSameAddresses(c, Src(r), Dst(r));
    AdjustedSumZero(Word(v.body, at), v.originalSrc, v.originalDst, Src(v), Dst(v));
    FoldMod(AdjustedSum(Word(v.body, at), v.originalSrc, v.originalDst, Src(v), Dst(v)));
    var c' := Transmitted6(u.protocol, Adjust(c, Src(r), Dst(r), Src(r), Dst(r)));
    assert Recalculated6(r).body == PutWord(r.body, at, c');
    assert PutWord(r.body, at, c) == r.body;
    assert Word(PutWord(r.body, at, c'), at) == c';
  }
}

/**
 Tunnel framing: an 8-byte big-endian header (two direction bits over a 62-bit length), then the body.

 A stream delivers its bytes in pieces of its own choosing.  `Reader` is such a stream: how many
 bytes each read returns is up to it, and so is whether it reports the end together with its last
 bytes or only on the next read.  Decoding is proved to depend on the bytes alone, plus that last
 bit in the one case where it matters.
 */
module Framing {
  import opened Wrappers
  import opened Bytes
  import opened PacketView
  import opened PacketBuffer

  const FLAG_FORWARD := 0x8000_0000_0000_0000
  const FLAG_RETURN := 0x4000_0000_0000_0000

  datatype Frame = Frame(body: seq<byte>, dir: Direction)

  // ---- Big-endian 64-bit fields -----------------------------------------------------------------

  function BigEndian(s: seq<byte>): nat {
    if s == [] then 0 else BigEndian(s[..|s| - 1]) * 0x100 + s[|s| - 1]
  }

  function ToBigEndian(v: nat, n: nat): (s: seq<byte>)
    ensures |s| == n
  {
    if n == 0 then [] else ToBigEndian(v / 0x100, n - 1) + [v % 0x100]
  }

  function Pow256(n: nat): nat {
    if n == 0 then 1 else 0x100 * Pow256(n - 1)
  }

  lemma {:induction false} BigEndianRoundTrip(v: nat, n: nat)
    requires v < Pow256(n)
    ensures BigEndian(ToBigEndian(v, n)) == v
  {
    if n > 0 {
      BigEndianRoundTrip(v / 0x100, n - 1);
      var s := ToBigEndian(v, n);
      assert s[..|s| - 1] == ToBigEndian(v / 0x100, n - 1);
    }
  }

  lemma Pow256Eight()
    ensures Pow256(8) == 0x1_0000_0000_0000_0000
  {
  }

  // ---- Header ----------------------------------------------------------------------------------

  /** `v | flag` for a single-bit flag. */
  function SetFlag(v: nat, flag: nat): nat
    requires flag > 0
  {
    if v / flag % 2 == 1 then v else v + flag
  }

  function HeaderValue(len: nat, dir: Direction): nat {
    match dir
    case Peer => len
    case Forward => SetFlag(len, FLAG_FORWARD)
    case Return => SetFlag(len, FLAG_RETURN)
  }

  function Encode(f: Frame): seq<byte> {
    ToBigEndian(HeaderValue(|f.body|, f.dir), 8) + f.body
  }

  function EncodeAll(fs: seq<Frame>): seq<byte> {
    if fs == [] then [] else Encode(fs[0]) + EncodeAll(fs[1..])
  }

  /** The header value as ReadPacketHeader understands it; None for a protocol error. */
  function HeaderMeaning(v: nat): Option<(nat, Direction)> {
    var forward := v / FLAG_FORWARD % 2 == 1;
    var back := v / FLAG_RETURN % 2 == 1;
    var size := v % FLAG_RETURN;
    if forward && back then None
    else if size > MAX_PACKET_BODY then None
    else Some((size, if forward then Forward else if back then Return else Peer))
  }

  lemma HeaderRoundTrip(len: nat, dir: Direction)
    requires len < FLAG_RETURN
    ensures HeaderValue(len, dir) < 0x1_0000_0000_0000_0000
    ensures HeaderMeaning(HeaderValue(len, dir)) == if len <= MAX_PACKET_BODY then Some((len, dir)) else None
  {
  }

  // ---- The header on the wire --------------------------------------------------------------------------

  /** The first byte of a header: 0x80 for a forwarded packet, 0x40 for a returned one. */
  function TagByte(dir: Direction): byte {
    match dir
    case Peer => 0
    case Forward => 0x80
    case Return => 0x40
  }

  lemma {:induction false} BigEndianInjective(s: seq<byte>, t: seq<byte>)
    requires |s| == |t| && BigEndian(s) == BigEndian(t)
    ensures s == t
  {
    if s != [] {
      var n := |s| - 1;
      BigEndianInjective(s[..n], t[..n]);
      assert s == s[..n] + [s[n]] && t == t[..n] + [t[n]];
    }
  }

  /** A frame of up to 65535 bytes starts with its tag, five zeros and its length, high byte first. */
  lemma HeaderOnWire(f: Frame)
    requires |f.body| < 0x1_0000
    ensures Encode(f) == [TagByte(f.dir), 0, 0, 0, 0, 0, |f.body| / 0x100, |f.body| % 0x100] + f.body
  {
    var v := HeaderValue(|f.body|, f.dir);
    var b: seq<byte> := [TagByte(f.dir), 0, 0, 0, 0, 0, |f.body| / 0x100, |f.body| % 0x100];
    TaggedValue(|f.body|, f.dir);
    Pow256Eight();
    BigEndianRoundTrip(v, 8);
    BigEndianEight(b);
    BigEndianInjective(ToBigEndian(v, 8), b);
  }

  lemma TaggedValue(len: nat, dir: Direction)
    requires len < 0x1_0000
    ensures HeaderValue(len, dir) == 0x100_0000_0000_0000 * (TagByte(dir) as int) + len < 0x1_0000_0000_0000_0000
  {
    assert len / FLAG_FORWARD == 0 && len / FLAG_RETURN == 0;
  }

  lemma BigEndianEight(b: seq<byte>)
    requires |b| == 8
    ensures BigEndian(b) == 0x100_0000_0000_0000 * (b[0] as int) + 0x1_0000_0000_0000 * (b[1] as int) + 0x100_0000_0000 * (b[2] as int)
                          + 0x1_0000_0000 * (b[3] as int) + 0x100_0000 * (b[4] as int) + 0x1_0000 * (b[5] as int)
                          + 0x100 * (b[6] as int) + b[7]
  {
    assert b[..7][..6] == b[..6] && b[..6][..5] == b[..5] && b[..5][..4] == b[..4] && b[..4][..3] == b[..3];
    assert b[..3][..2] == b[..2] && b[..2][..1] == b[..1] && b[..1][..0] == [];
    assert BigEndian(b[..1]) == b[0];
    assert BigEndian(b[..2]) == 0x100 * BigEndian(b[..1]) + b[1];
    assert BigEndian(b[..3]) == 0x100 * BigEndian(b[..2]) + b[2];
    assert BigEndian(b[..4]) == 0x100 * BigEndian(b[..3]) + b[3];
    assert BigEndian(b[..5]) == 0x100 * BigEndian(b[..4]) + b[4];
    assert BigEndian(b[..6]) == 0x100 * BigEndian(b[..5]) + b[5];
    assert BigEndian(b[..7]) == 0x100 * BigEndian(b[..6]) + b[6];
  }

  /** Eight bytes are a header exactly if they are of that form and the length is at most 3586. */
  lemma HeaderOffWire(b: seq<byte>)
    requires |b| == 8
    ensures var m := HeaderMeaning(BigEndian(b));
            var length := 0x100 * (b[6] as int) + b[7];
            && (m.Some? <==> (b[0] == 0 || b[0] == 0x40 || b[0] == 0x80) && b[1..6] == [0, 0, 0, 0, 0] && length <= 3586)
            && (m.Some? ==> m.value.0 == length && b[0] == TagByte(m.value.1))
  {
    BigEndianEight(b);
    var low := BigEndian(b) - 0x100_0000_0000_0000 * (b[0] as int);
    MeaningIff(b[0], low);
    LengthIff(b, low);
    SmallIff(b);
  }

  lemma MeaningIff(top: byte, low: nat)
    requires low < 0x100_0000_0000_0000
    ensures var m := HeaderMeaning(0x100_0000_0000_0000 * (top as int) + low);
            && (m.Some? <==> (top == 0 || top == 0x40 || top == 0x80) && low <= 3586)
            && (m.Some? ==> m.value.0 == low && top == TagByte(m.value.1))
  {
    TopBits(top, low);
  }

  lemma LengthIff(b: seq<byte>, low: nat)
    requires |b| == 8
    requires low == 0x1_0000_0000_0000 * (b[1] as int) + 0x100_0000_0000 * (b[2] as int)
                  + 0x1_0000_0000 * (b[3] as int) + 0x100_0000 * (b[4] as int) + 0x1_0000 * (b[5] as int)
                  + 0x100 * (b[6] as int) + b[7]
    ensures low <= 3586 <==>
      b[1] == 0 && b[2] == 0 && b[3] == 0 && b[4] == 0 && b[5] == 0 && 0x100 * (b[6] as int) + b[7] <= 3586
  {
  }

  lemma TopBits(top: byte, low: nat)
    requires low < 0x100_0000_0000_0000
    ensures var v := 0x100_0000_0000_0000 * (top as int) + low;
            && v / FLAG_FORWARD % 2 == top / 0x80 && v / FLAG_RETURN % 2 == top / 0x40 % 2
            && v % FLAG_RETURN == 0x100_0000_0000_0000 * (top % 0x40) + low
  {
  }

  lemma SmallIff(b: seq<byte>)
    requires |b| == 8
    ensures b[1..6] == [0, 0, 0, 0, 0] <==> b[1] == 0 && b[2] == 0 && b[3] == 0 && b[4] == 0 && b[5] == 0
  {
    if b[1] == 0 && b[2] == 0 && b[3] == 0 && b[4] == 0 && b[5] == 0 {
      assert b[1..6] == [b[1], b[2], b[3], b[4], b[5]];
    } else {
      assert b[1..6][0] == b[1] && b[1..6][1] == b[2] && b[1..6][2] == b[3] && b[1..6][3] == b[4] && b[1..6][4] == b[5];
    }
  }

  method AppendPacketToBuf(buf: seq<byte>, packet: seq<byte>, dir: Direction) returns (r: seq<byte>)
    ensures r == buf + Encode(Frame(packet, dir))
  {
    var v := |packet|;
    match dir {
      case Peer =>
      case Forward => v := SetFlag(v, FLAG_FORWARD);
      case Return => v := SetFlag(v, FLAG_RETURN);
    }
    var header := ToBigEndian(v, 8);
    r := buf + header;
    r := r + packet;
  }

  // ---- Decoding, as a function of the bytes ------------------------------------------------------

  /**
   The frames a stream of bytes decodes to.  A stream that ends inside a body still yields what
   arrived of it.  A body that fills the buffer is refused, unless the stream ended with it and said
   so together with the last bytes (`eofWithLast`).
   */
  function Decode(s: seq<byte>, eofWithLast: bool): seq<Frame>
    decreases |s|
  {
    if |s| < 8 then []
    else
      match HeaderMeaning(BigEndian(s[..8]))
      case None => []
      case Some((size, dir)) =>
        var rest := s[8..];
        if |rest| < size then [Frame(rest, dir)]
        else if size == MAX_PACKET_BODY && !(|rest| == size && eofWithLast) then []
        else [Frame(rest[..size], dir)] + Decode(rest[size..], eofWithLast)
  }

  /**
   What one encoded frame decodes to in front of any bytes: exactly itself when its body is below the
   limit, or when it fills the buffer and ends a stream that reports its end with the last bytes;
   otherwise the decoder stops there and everything after the frame is lost.
   */
  lemma DecodeOneThenRest(f: Frame, rest: seq<byte>, eofWithLast: bool)
    requires |f.body| < FLAG_RETURN
    ensures Decode(Encode(f) + rest, eofWithLast)
         == if |f.body| < MAX_PACKET_BODY || (|f.body| == MAX_PACKET_BODY && rest == [] && eofWithLast)
            then [f] + Decode(rest, eofWithLast) else []
  {
    HeaderOf(f, rest);
    HeaderRoundTrip(|f.body|, f.dir);
    assert (f.body + rest)[..|f.body|] == f.body && (f.body + rest)[|f.body|..] == rest;
  }

  /** What a decoder sees of an encoded frame: the header's value, then the body and the rest. */
  lemma HeaderOf(f: Frame, rest: seq<byte>)
    requires |f.body| < FLAG_RETURN
    ensures var s := Encode(f) + rest;
      |s| >= 8 && BigEndian(s[..8]) == HeaderValue(|f.body|, f.dir) && s[8..] == f.body + rest
  {
    var v := HeaderValue(|f.body|, f.dir);
    Pow256Eight();
    BigEndianRoundTrip(v, 8);
    SplitEight(ToBigEndian(v, 8), f.body, rest);
  }

  lemma SplitEight(h: seq<byte>, body: seq<byte>, rest: seq<byte>)
    requires |h| == 8
    ensures (h + body + rest)[..8] == h && (h + body + rest)[8..] == body + rest
  {
  }

  /** Decoding the concatenated encodings of any frames with bodies below the limit returns those frames. */
  lemma {:induction false} FramingRoundTrip(fs: seq<Frame>, eofWithLast: bool)
    requires forall f :: f in fs ==> |f.body| < MAX_PACKET_BODY
    ensures Decode(EncodeAll(fs), eofWithLast) == fs
  {
    if fs != [] {
      DecodeOneThenRest(fs[0], EncodeAll(fs[1..]), eofWithLast);
      FramingRoundTrip(fs[1..], eofWithLast);
      assert fs == [fs[0]] + fs[1..];
    }
  }

  // ---- Decoding from a stream ---------------------------------------------------------------------

  class Reader {
    var pending: seq<byte>
    var pieces: seq<nat>
    const eofWithLast: bool

    constructor (bytes: seq<byte>, pieces: seq<nat>, eofWithLast: bool)
      ensures pending == bytes && this.pieces == pieces && this.eofWithLast == eofWithLast
    {
      pending, this.pieces, this.eofWithLast := bytes, pieces, eofWithLast;
    }

    /**
     At most `max` of the pending bytes; which number is the stream's choice.  A read may deliver
     nothing and report nothing, but not forever.
     */
    method Read(max: nat) returns (data: seq<byte>, eof: bool)
      requires max > 0
      modifies this
      ensures |data| <= max && data <= old(pending) && pending == old(pending)[|data|..]
      ensures pieces == if old(pieces) == [] then [] else old(pieces)[1..]
      ensures old(pieces) == [] && old(pending) != [] ==> data != []
      ensures eof <==> pending == [] && (data == [] || eofWithLast)
    {
      var wish := if pieces == [] then max else pieces[0];
      pieces := if pieces == [] then [] else pieces[1..];
      var n := if wish > max then max else wish;
      n := if n > |pending| then |pending| else n;
      data, pending := pending[..n], pending[n..];
      eof := pending == [] && (data == [] || eofWithLast);
    }
  }

  /** io.ReadFull. */
  method ReadFull(r: Reader, n: nat) returns (data: seq<byte>, ok: bool)
    modifies r
    ensures ok <==> |old(r.pending)| >= n
    ensures ok ==> data == old(r.pending)[..n] && r.pending == old(r.pending)[n..]
  {
    data := [];
    var eof := false;
    while |data| < n && !eof
      invariant |data| <= n && data + r.pending == old(r.pending)
      invariant eof ==> r.pending == []
      decreases |r.pieces| + n - |data|, if eof then 0 else 1
    {
      var piece;
      piece, eof := r.Read(n - |data|);
      data := data + piece;
    }
    ok := |data| >= n;
    assert old(r.pending)[..|data|] == data;
  }

  method ReadPacketHeader(r: Reader) returns (ok: bool, size: nat, dir: Direction)
    modifies r
    ensures |old(r.pending)| < 8 ==> !ok
    ensures |old(r.pending)| >= 8 ==>
              && r.pending == old(r.pending)[8..]
              && HeaderMeaning(BigEndian(old(r.pending)[..8])) == if ok then Some((size, dir)) else None
  {
    var data, full := ReadFull(r, 8);
    if !full {
      return false, 0, Peer;
    }
    var v := BigEndian(data);
    var forward := v / FLAG_FORWARD % 2 == 1;
    var back := v / FLAG_RETURN % 2 == 1;
    if forward && back {
      return false, 0, Peer;
    }
    dir := if forward then Forward else if back then Return else Peer;
    size := v % FLAG_RETURN;
    if size > MAX_PACKET_BODY {
      return false, 0, Peer;
    }
    ok := true;
  }

  /** Packet.ReadFrom over a reader limited to `limit` bytes. */
  method ReadFrom(packet: Packet, r: Reader, limit: nat) returns (ok: bool)
    requires packet.Valid() && limit <= MAX_PACKET_BODY
    modifies packet, packet.buffer, r
    ensures packet.Valid()
    ensures var avail := |old(r.pending)|;
            ok <==> !(limit == MAX_PACKET_BODY && avail >= limit && !(avail == limit && r.eofWithLast))
    ensures ok ==> packet.Body() + r.pending == old(r.pending)
    ensures ok ==> packet.size == if limit < |old(r.pending)| then limit else |old(r.pending)|
  {
    packet.size := 0;
    var left, eof := limit, false;
    while left > 0 && !eof
      invariant packet.Valid() && packet.size + left == limit && (packet.size < MAX_PACKET_BODY || eof)
      invariant packet.Body() + r.pending == old(r.pending)
      invariant 0 <= left && packet.size + |r.pending| == |old(r.pending)|
      invariant eof ==> r.pending == [] && (left > 0 || r.eofWithLast)
      decreases |r.pieces| + left, if eof then 0 else 1
    {
      var room := MAX_PACKET_BODY - packet.size;
      var n;
      n, eof := Fetch(packet, r, if room < left then room else left);
      left := left - n;
      if !eof && TUN_PACKET_OFFSET + packet.size == packet.buffer.Length {
        return false;
      }
    }
    ok := true;
  }

  /** One read into the packet. */
  method Fetch(packet: Packet, r: Reader, max: nat) returns (n: nat, eof: bool)
    requires packet.Valid() && 0 < max <= MAX_PACKET_BODY - packet.size
    modifies packet, packet.buffer, r
    ensures packet.Valid() && n <= max && packet.size == old(packet.size) + n
    ensures packet.Body() + r.pending == old(packet.Body()) + old(r.pending) && |r.pending| + n == |old(r.pending)|
    ensures |r.pieces| == if old(r.pieces) == [] then 0 else |old(r.pieces)| - 1
    ensures old(r.pieces) == [] && old(r.pending) != [] ==> n > 0
    ensures eof <==> r.pending == [] && (n == 0 || r.eofWithLast)
  {
    var data;
    data, eof := r.Read(max);
    assert old(r.pending) == data + r.pending;
    Store(packet, data);
    n := |data|;
  }

  /** Appends the bytes just read to the body gathered so far. */
  method Store(packet: Packet, data: seq<byte>)
    requires packet.Valid() && packet.size + |data| <= MAX_PACKET_BODY
    modifies packet, packet.buffer
    ensures packet.Valid() && packet.size == old(packet.size) + |data|
    ensures packet.Body() == old(packet.Body()) + data
  {
    var at := TUN_PACKET_OFFSET + packet.size;
    forall i | 0 <= i < |data| { packet.buffer[at + i] := data[i]; }
    packet.size := packet.size + |data|;
  }

  lemma DecodeStep(s: seq<byte>, size: nat, dir: Direction, body: seq<byte>, rest: seq<byte>, eofWithLast: bool)
    requires |s| >= 8 && HeaderMeaning(BigEndian(s[..8])) == Some((size, dir)) && s[8..] == body + rest
    requires |body| == if size < |s| - 8 then size else |s| - 8
    requires !(size == MAX_PACKET_BODY && |s| - 8 >= size && !(|s| - 8 == size && eofWithLast))
    ensures Decode(s, eofWithLast) == [Frame(body, dir)] + Decode(rest, eofWithLast)
  {
    assert s[8..][..|body|] == body && s[8..][|body|..] == rest;
    if |s| - 8 < size {
      assert rest == [] && s[8..] == body;
    }
  }

  /** One turn of the read loop of StreamHandler. */
  method ReadFrame(r: Reader) returns (ok: bool, frame: Frame)
    modifies r
    ensures ok ==> |r.pending| < |old(r.pending)|
                   && Decode(old(r.pending), r.eofWithLast) == [frame] + Decode(r.pending, r.eofWithLast)
    ensures !ok ==> Decode(old(r.pending), r.eofWithLast) == []
  {
    frame := Frame([], Peer);
    var packet := new Packet();
    var size, dir;
    ok, size, dir := ReadPacketHeader(r);
    if !ok {
      return;
    }
    ghost var after := r.pending;
    ok := ReadFrom(packet, r, size);
    if !ok {
      return;
    }
    DecodeStep(old(r.pending), size, dir, packet.Body(), r.pending, r.eofWithLast);
    packet.dir := dir;
    var body := packet.Slice(0, packet.size);
    assert body == packet.Body();
    frame := Frame(body, dir);
  }

  /** The read loop of StreamHandler: frames until the stream ends or breaks the protocol. */
  method DecodeStream(r: Reader) returns (frames: seq<Frame>)
    modifies r
    ensures frames == Decode(old(r.pending), r.eofWithLast)
  {
    frames := [];
    while true
      invariant frames + Decode(r.pending, r.eofWithLast) == Decode(old(r.pending), r.eofWithLast)
      decreases |r.pending|
    {
      var ok, frame := ReadFrame(r);
      if !ok {
        return;
      }
      frames := frames + [frame];
    }
  }

  method EncodeBatch(fs: seq<Frame>) returns (buf: seq<byte>)
    ensures buf == EncodeAll(fs)
  {
    buf := [];
    var i := 0;
    while i < |fs|
      invariant 0 <= i <= |fs|
      invariant buf + EncodeAll(fs[i..]) == EncodeAll(fs)
    {
      assert fs[i..][1..] == fs[i + 1..];
      assert buf + (Encode(fs[i]) + EncodeAll(fs[i + 1..])) == (buf + Encode(fs[i])) + EncodeAll(fs[i + 1..]);
      buf := AppendPacketToBuf(buf, fs[i].body, fs[i].dir);
      i := i + 1;
    }
  }

  /** Whatever pieces the stream arrives in, the frames sent are the frames received. */
  method SendThenReceive(fs: seq<Frame>, pieces: seq<nat>, eofWithLast: bool) returns (got: seq<Frame>)
    requires forall f :: f in fs ==> |f.body| < MAX_PACKET_BODY
    ensures got == fs
  {
    var buf := EncodeBatch(fs);
    var r := new Reader(buf, pieces, eofWithLast);
    FramingRoundTrip(fs, eofWithLast);
    got := DecodeStream(r);
  }
}

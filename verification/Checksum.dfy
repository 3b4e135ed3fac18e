/**
 Ones'-complement arithmetic of the Internet checksum (RFC 1071, section 3 of RFC 1624).

 `WordSum` is the mathematical sum of a byte string read as big-endian 16-bit words, an odd last
 byte padded with zero; `Fold` is the 16-bit value an end-around-carry adder leaves of a sum.  The
 loops of vpn/packet.go are proved to compute exactly these, with no sum leaving 32 bits.
 */
module Checksum {
  import opened Bytes

  const IPV6_LEN := 16

  /** What byte `b` at index `i` of a checksummed string adds: the high byte of a word comes first. */
  function Weighted(b: byte, i: nat): nat {
    if i % 2 == 0 then 0x100 * (b as int) else b
  }

  /** Sum of the first `n` bytes of `s`, each weighted by its place in its word. */
  function PrefixSum(s: seq<byte>, n: nat): nat
    requires n <= |s|
  {
    if n == 0 then 0 else PrefixSum(s, n - 1) + Weighted(s[n - 1], n - 1)
  }

  function WordSum(s: seq<byte>): nat {
    PrefixSum(s, |s|)
  }

  /** The value of an end-around-carry sum: zero only for zero, otherwise in 1..0xffff modulo 0xffff. */
  function Fold(n: nat): uint16 {
    if n == 0 then 0 else (n - 1) % 0xffff + 1
  }

  function Complement(w: uint16): uint16 {
    0xffff - w
  }

  /** A checksummed total is accepted by a receiver when it folds to all ones (RFC 1071). */
  predicate Verifies(total: nat) {
    Fold(total) == 0xffff
  }

  lemma VerifiesIffMultiple(total: nat)
    ensures Verifies(total) <==> total > 0 && total % 0xffff == 0
  {
  }

  lemma AddMultiple(x: nat, k: nat)
    ensures (x + 0xffff * k) % 0xffff == x % 0xffff
  {
  }

  lemma FoldCong(a: nat, b: nat)
    requires a > 0 && b > 0 && a % 0xffff == b % 0xffff
    ensures Fold(a) == Fold(b)
  {
    assert (a - 1) % 0xffff == (b - 1) % 0xffff;
  }

  lemma FoldMod(n: nat)
    ensures Fold(n) % 0xffff == n % 0xffff
    ensures Fold(n) == 0 <==> n == 0
  {
  }

  lemma ComplementCong(m: nat, n: nat)
    requires m % 0xffff == n % 0xffff
    ensures Complement(Fold(m)) % 0xffff == Complement(Fold(n)) % 0xffff
  {
    FoldMod(m);
    FoldMod(n);
  }

  /** Writing the complement of the folded rest into the checksum field makes the total verify. */
  lemma ComplementVerifies(rest: nat, c: uint16)
    requires rest > 0 && c % 0xffff == Complement(Fold(rest)) % 0xffff
    ensures Verifies(rest + c)
  {
    FoldMod(rest);
    var f := Fold(rest);
    assert rest % 0xffff == f % 0xffff;
    assert (rest + c) % 0xffff == 0;
  }

  // ---- Sums of parts and of changed strings -----------------------------------------------

  lemma {:induction false} PrefixSumSame(s: seq<byte>, t: seq<byte>, n: nat)
    requires n <= |s| && n <= |t|
    requires forall i :: 0 <= i < n ==> s[i] == t[i]
    ensures PrefixSum(s, n) == PrefixSum(t, n)
  {
    if n > 0 { PrefixSumSame(s, t, n - 1); }
  }

  /** Replacing the word at an even offset moves the sum by the difference of the two words. */
  lemma {:induction false} PutWordSum(s: seq<byte>, off: nat, w: uint16, n: nat)
    requires off % 2 == 0 && off + 2 <= n <= |s|
    ensures PrefixSum(PutWord(s, off, w), n) + Word(s, off) == PrefixSum(s, n) + w
  {
    var t := PutWord(s, off, w);
    if n == off + 2 {
      PrefixSumSame(s, t, off);
      assert PrefixSum(s, off + 1) == PrefixSum(s, off) + 0x100 * (s[off] as int);
      assert PrefixSum(t, off + 1) == PrefixSum(t, off) + 0x100 * (t[off] as int);
    } else {
      PutWordSum(s, off, w, n - 1);
    }
  }

  /** An even-length string contributes independently of what follows it. */
  lemma {:induction false} PrefixSumConcat(a: seq<byte>, b: seq<byte>, n: nat)
    requires |a| % 2 == 0 && n <= |b|
    ensures PrefixSum(a + b, |a| + n) == WordSum(a) + PrefixSum(b, n)
  {
    if n == 0 {
      PrefixSumSame(a + b, a, |a|);
    } else {
      PrefixSumConcat(a, b, n - 1);
      assert (a + b)[|a| + n - 1] == b[n - 1];
      assert (|a| + n - 1) % 2 == (n - 1) % 2;
    }
  }

  lemma {:induction false} PrefixSumBound(s: seq<byte>, n: nat)
    requires n <= |s|
    ensures PrefixSum(s, n) <= 0xff00 * n
  {
    if n > 0 { PrefixSumBound(s, n - 1); }
  }

  /** The next whole word. */
  lemma PrefixSumStep(s: seq<byte>, n: nat)
    requires n + 2 <= |s| && n % 2 == 0
    ensures PrefixSum(s, n + 2) == PrefixSum(s, n) + 0x100 * (s[n] as int) + s[n + 1]
    ensures PrefixSum(s, n + 2) <= 0xff00 * (n + 2)
  {
    assert PrefixSum(s, n + 2) == PrefixSum(s, n + 1) + s[n + 1];
    PrefixSumBound(s, n + 2);
  }

  // ---- The loops of packet.go ----------------------------------------------------------------

  /** The carry loop that ends every checksum function. */
  method FoldCarries(v: uint32) returns (r: uint16)
    ensures r == Fold(v)
  {
    var sum: uint32 := v;
    while sum > 0xffff
      invariant Fold(sum) == Fold(v)
      decreases sum
    {
      var high, low := sum / 0x1_0000, sum % 0x1_0000;
      FoldCong(sum, high + low);
      sum := high + low;
    }
    r := sum;
  }

  /** Sum of the words of `data` on top of `csum`, folded and complemented. */
  method TcpipChecksum(data: seq<byte>, csum: uint32) returns (r: uint16)
    requires |data| <= 0xffff && csum <= 0xff_ffff
    ensures r == Complement(Fold(csum + WordSum(data)))
  {
    var sum: uint32 := csum;
    var length := |data| - 1;
    var i := 0;
    while i < length
      invariant 0 <= i <= |data| && i % 2 == 0
      invariant sum == csum + PrefixSum(data, i)
    {
      PrefixSumStep(data, i);
      sum := sum + 0x100 * (data[i] as int);
      sum := sum + data[i + 1];
      i := i + 2;
    }
    PrefixSumBound(data, i);
    if |data| % 2 == 1 {
      sum := sum + 0x100 * (data[length] as int);
    }
    var f := FoldCarries(sum);
    r := Complement(f);
  }

  // ---- Pseudo-headers ------------------------------------------------------------------------

  type Addr4 = a: seq<byte> | |a| == 4 witness [0, 0, 0, 0]
  type Addr6 = a: seq<byte> | |a| == 16 witness seq(16, _ => 0)

  /** The 12-byte TCP/UDP pseudo-header over IPv4. */
  function PseudoHeader4(src: Addr4, dst: Addr4, protocol: byte, len: uint16): seq<byte> {
    src + dst + [0, protocol, len / 0x100, len % 0x100]
  }

  /** The 40-byte upper-layer pseudo-header of section 8.1 of RFC 8200. */
  function PseudoHeader6(src: Addr6, dst: Addr6, protocol: byte, len: uint32): seq<byte> {
    src + dst + LengthAndNext(len / 0x1_0000, len % 0x1_0000, protocol)
  }

  function LengthAndNext(high: uint16, low: uint16, protocol: byte): seq<byte> {
    [high / 0x100, high % 0x100, low / 0x100, low % 0x100, 0, 0, 0, protocol]
  }

  lemma SumOf4(a: seq<byte>)
    requires |a| == 4
    ensures WordSum(a) == Word(a, 0) + Word(a, 2)
  {
    assert PrefixSum(a, 4) == PrefixSum(a, 3) + a[3];
    assert PrefixSum(a, 2) == PrefixSum(a, 1) + a[1];
  }

  lemma SumOf8(a: seq<byte>)
    requires |a| == 8
    ensures WordSum(a) == Word(a, 0) + Word(a, 2) + Word(a, 4) + Word(a, 6)
  {
    assert PrefixSum(a, 8) == PrefixSum(a, 7) + a[7];
    assert PrefixSum(a, 6) == PrefixSum(a, 5) + a[5];
    assert PrefixSum(a, 4) == PrefixSum(a, 3) + a[3];
    assert PrefixSum(a, 2) == PrefixSum(a, 1) + a[1];
  }

  lemma PseudoSum4(src: Addr4, dst: Addr4, protocol: byte, len: uint16)
    ensures WordSum(PseudoHeader4(src, dst, protocol, len)) == WordSum(src) + WordSum(dst) + protocol + len
  {
    var tail: seq<byte> := [0, protocol, len / 0x100, len % 0x100];
    PrefixSumConcat(src + dst, tail, 4);
    PrefixSumConcat(src, dst, 4);
    SumOf4(tail);
  }

  lemma PseudoSum6(src: Addr6, dst: Addr6, protocol: byte, len: uint32)
    ensures WordSum(PseudoHeader6(src, dst, protocol, len))
         == WordSum(src) + WordSum(dst) + len / 0x1_0000 + len % 0x1_0000 + protocol
  {
    var tail := LengthAndNext(len / 0x1_0000, len % 0x1_0000, protocol);
    PrefixSumConcat(src + dst, tail, 8);
    PrefixSumConcat(src, dst, 16);
    SumOf8(tail);
  }

  /** Total a receiver folds for a transport segment over IPv4. */
  function Total4(src: Addr4, dst: Addr4, protocol: byte, segment: seq<byte>): nat
    requires |segment| < 0x1_0000
  {
    WordSum(PseudoHeader4(src, dst, protocol, |segment|) + segment)
  }

  /** Total a receiver folds for an upper-layer segment over IPv6. */
  function Total6(src: Addr6, dst: Addr6, protocol: byte, segment: seq<byte>): nat
    requires |segment| < 0x1_0000_0000
  {
    WordSum(PseudoHeader6(src, dst, protocol, |segment|) + segment)
  }

  lemma Total4Sum(src: Addr4, dst: Addr4, protocol: byte, segment: seq<byte>)
    requires |segment| < 0x1_0000
    ensures Total4(src, dst, protocol, segment)
         == WordSum(src) + WordSum(dst) + protocol + |segment| + WordSum(segment)
  {
    PseudoSum4(src, dst, protocol, |segment|);
    PrefixSumConcat(PseudoHeader4(src, dst, protocol, |segment|), segment, |segment|);
  }

  lemma Total6Sum(src: Addr6, dst: Addr6, protocol: byte, segment: seq<byte>)
    requires |segment| < 0x1_0000_0000
    ensures Total6(src, dst, protocol, segment)
         == WordSum(src) + WordSum(dst) + |segment| / 0x1_0000 + |segment| % 0x1_0000 + protocol + WordSum(segment)
  {
    PseudoSum6(src, dst, protocol, |segment|);
    PrefixSumConcat(PseudoHeader6(src, dst, protocol, |segment|), segment, |segment|);
  }

  method ChecksumIPv4Header(buf: seq<byte>) returns (r: uint16)
    requires |buf| <= 0xffff
    ensures r == Complement(Fold(WordSum(buf)))
  {
    var v: uint32 := 0;
    var i := 0;
    while i < |buf| - 1
      invariant 0 <= i <= |buf| && i % 2 == 0
      invariant v == PrefixSum(buf, i)
    {
      PrefixSumBound(buf, i);
      assert PrefixSum(buf, i + 2) == PrefixSum(buf, i + 1) + buf[i + 1];
      v := v + Word(buf, i);
      i := i + 2;
    }
    PrefixSumBound(buf, i);
    if |buf| % 2 == 1 {
      v := v + 0x100 * (buf[|buf| - 1] as int);
    }
    var f := FoldCarries(v);
    r := Complement(f);
  }

  method ChecksumIPv4TCPUDP(segment: seq<byte>, protocol: byte, src: Addr4, dst: Addr4) returns (r: uint16)
    requires |segment| <= 0xffff
    ensures r == Complement(Fold(Total4(src, dst, protocol, segment)))
  {
    var csum: uint32 := 0;
    csum := csum + ((src[0] as int) + src[2]) * 0x100;
    csum := csum + ((src[1] as int) + src[3]);
    csum := csum + ((dst[0] as int) + dst[2]) * 0x100;
    csum := csum + ((dst[1] as int) + dst[3]);
    SumOf4(src);
    SumOf4(dst);
    var totalLen: uint32 := |segment|;
    csum := csum + protocol;
    csum := csum + totalLen % 0x1_0000;
    csum := csum + totalLen / 0x1_0000;
    Total4Sum(src, dst, protocol, segment);
    r := TcpipChecksum(segment, csum);
  }

  method ChecksumIPv6TCPUDP(segment: seq<byte>, protocol: byte, src: Addr6, dst: Addr6) returns (r: uint16)
    requires |segment| <= 0xffff
    ensures r == Complement(Fold(Total6(src, dst, protocol, segment)))
  {
    var csum: uint32 := 0;
    PrefixSumBound(src, 16);
    PrefixSumBound(dst, 16);
    csum := AddAddressWords(src, csum);
    csum := AddAddressWords(dst, csum);
    var totalLen: uint32 := |segment|;
    csum := csum + totalLen / 0x1_0000;
    csum := csum + totalLen % 0x1_0000;
    csum := csum + protocol;
    Total6Sum(src, dst, protocol, segment);
    r := TcpipChecksum(segment, csum);
  }

  method AddAddressWords(ip: Addr6, sum: uint32) returns (r: uint32)
    requires sum <= 0x0fff_ffff
    ensures r == sum + WordSum(ip)
  {
    r := sum;
    var i := 0;
    while i < IPV6_LEN
      invariant 0 <= i <= IPV6_LEN && i % 2 == 0
      invariant r == sum + PrefixSum(ip, i)
    {
      PrefixSumBound(ip, i);
      assert PrefixSum(ip, i + 2) == PrefixSum(ip, i + 1) + ip[i + 1];
      r := r + ((ip[i] as int) * 0x100 + ip[i + 1]);
      i := i + 2;
    }
  }

  // ---- Incremental adjustment (section 3 of RFC 1624) ---------------------------------------------

  /** Sum after exchanging the address words of the pseudo-header, before folding. */
  function AdjustedSum(checksum: uint16, oldSrc: Addr6, oldDst: Addr6, newSrc: Addr6, newDst: Addr6): (n: int)
  {
    Complement(checksum) + ExchangeSum(oldSrc, newSrc, 16) + ExchangeSum(oldDst, newDst, 16)
  }

  /** What exchanging the first `n` bytes of `was` for those of `now` adds to an end-around-carry sum. */
  function ExchangeSum(was: Addr6, now: Addr6, n: nat): nat
    requires n <= 16 && n % 2 == 0
  {
    if n == 0 then 0 else
      ExchangeSum(was, now, n - 2) + Complement(Word(was, n - 2)) + Word(now, n - 2)
  }

  function Adjust(checksum: uint16, oldSrc: Addr6, oldDst: Addr6, newSrc: Addr6, newDst: Addr6): uint16 {
    Complement(Fold(AdjustedSum(checksum, oldSrc, oldDst, newSrc, newDst)))
  }

  lemma {:induction false} ExchangeSumIs(was: Addr6, now: Addr6, n: nat)
    requires n <= 16 && n % 2 == 0
    ensures ExchangeSum(was, now, n) + PrefixSum(was, n) == 0xffff * (n / 2) + PrefixSum(now, n)
  {
    if n > 0 {
      ExchangeSumIs(was, now, n - 2);
      assert PrefixSum(was, n) == PrefixSum(was, n - 1) + was[n - 1];
      assert PrefixSum(now, n) == PrefixSum(now, n - 1) + now[n - 1];
    }
  }

  /** Folding between additions changes nothing. */
  lemma FoldAbsorbs(a: nat, b: nat)
    ensures Fold(Fold(a) + b) == Fold(a + b)
  {
    FoldMod(a);
    if a > 0 { FoldCong(Fold(a) + b, a + b); }
  }

  lemma ExchangeStep(sum: uint16, was: Addr6, now: Addr6, i: nat)
    requires i + 2 <= 16 && i % 2 == 0
    ensures (i + 2) % 2 == 0
    ensures Fold(Fold(sum + ExchangeSum(was, now, i)) + Complement(Word(was, i)) + Word(now, i))
         == Fold(sum + ExchangeSum(was, now, i + 2))
  {
    FoldAbsorbs(sum + ExchangeSum(was, now, i), Complement(Word(was, i)) + Word(now, i));
  }

  method AdjustAddress(sum: uint16, was: Addr6, now: Addr6) returns (r: uint16)
    ensures r == Fold(sum + ExchangeSum(was, now, 16))
  {
    r := sum;
    var i := 0;
    while i < IPV6_LEN
      invariant 0 <= i <= IPV6_LEN && i % 2 == 0
      invariant r == Fold(sum + ExchangeSum(was, now, i))
    {
      var wide: uint32 := r;
      wide := wide + Complement(Word(was, i));
      wide := wide + Word(now, i);
      ExchangeStep(sum, was, now, i);
      r := FoldCarries(wide);
      i := i + 2;
    }
  }

  method AdjustIPv6PseudoHeaderChecksum(checksum: uint16, oldSrc: Addr6, oldDst: Addr6, newSrc: Addr6, newDst: Addr6)
    returns (r: uint16)
    ensures r == Adjust(checksum, oldSrc, oldDst, newSrc, newDst)
  {
    var sum := AdjustAddress(Complement(checksum), oldSrc, newSrc);
    FoldAbsorbs(Complement(checksum) + ExchangeSum(oldSrc, newSrc, 16), ExchangeSum(oldDst, newDst, 16));
    sum := AdjustAddress(sum, oldDst, newDst);
    r := Complement(sum);
  }

  // ---- What the two forms guarantee -------------------------------------------------------------

  /** Full recompute over IPv4: zero the field, sum, complement, write back - the receiver accepts. */
  lemma RecomputeVerifies4(src: Addr4, dst: Addr4, protocol: byte, segment: seq<byte>, off: nat)
    requires protocol > 0 && off % 2 == 0 && off + 2 <= |segment| < 0x1_0000
    ensures var zeroed := PutWord(segment, off, 0);
            Verifies(Total4(src, dst, protocol, PutWord(zeroed, off, Complement(Fold(Total4(src, dst, protocol, zeroed))))))
  {
    var zeroed := PutWord(segment, off, 0);
    var c := Complement(Fold(Total4(src, dst, protocol, zeroed)));
    Total4Sum(src, dst, protocol, zeroed);
    Total4Sum(src, dst, protocol, PutWord(zeroed, off, c));
    PutWordSum(zeroed, off, c, |segment|);
    ComplementVerifies(Total4(src, dst, protocol, zeroed), c);
  }

  /** The same for the header checksum of section 3.1 of RFC 791, which covers the header alone. */
  lemma HeaderVerifies(header: seq<byte>, off: nat)
    requires off % 2 == 0 && off + 2 <= |header| && header[0] > 0 && off > 0
    ensures var zeroed := PutWord(header, off, 0);
            Verifies(WordSum(PutWord(zeroed, off, Complement(Fold(WordSum(zeroed))))))
  {
    var zeroed := PutWord(header, off, 0);
    var c := Complement(Fold(WordSum(zeroed)));
    PutWordSum(zeroed, off, c, |header|);
    FirstByteCounts(zeroed, |header|);
    ComplementVerifies(WordSum(zeroed), c);
  }

  lemma {:induction false} FirstByteCounts(s: seq<byte>, n: nat)
    requires 0 < n <= |s| && s[0] > 0
    ensures PrefixSum(s, n) > 0
  {
    if n > 1 { FirstByteCounts(s, n - 1); }
  }

  /** Over IPv6 any field congruent to the complement verifies, which covers UDP's 0 -> 0xffff. */
  lemma RecomputeVerifies6(src: Addr6, dst: Addr6, protocol: byte, segment: seq<byte>, off: nat, c: uint16)
    requires protocol > 0 && off % 2 == 0 && off + 2 <= |segment| < 0x1_0000_0000
    requires c % 0xffff == Complement(Fold(Total6(src, dst, protocol, PutWord(segment, off, 0)))) % 0xffff
    ensures Verifies(Total6(src, dst, protocol, PutWord(PutWord(segment, off, 0), off, c)))
  {
    var zeroed := PutWord(segment, off, 0);
    Total6Sum(src, dst, protocol, zeroed);
    Total6Sum(src, dst, protocol, PutWord(zeroed, off, c));
    PutWordSum(zeroed, off, c, |segment|);
    ComplementVerifies(Total6(src, dst, protocol, zeroed), c);
  }

  /** Sum of everything but the checksum word, for the pair (src, dst). */
  function Rest6(src: Addr6, dst: Addr6, protocol: byte, segment: seq<byte>, off: nat): nat
    requires off + 2 <= |segment| < 0x1_0000_0000
  {
    Total6(src, dst, protocol, PutWord(segment, off, 0))
  }

  lemma RestAndField(src: Addr6, dst: Addr6, protocol: byte, segment: seq<byte>, off: nat)
    requires off % 2 == 0 && off + 2 <= |segment| < 0x1_0000_0000
    ensures Total6(src, dst, protocol, segment) == Rest6(src, dst, protocol, segment, off) + Word(segment, off)
  {
    Total6Sum(src, dst, protocol, segment);
    Total6Sum(src, dst, protocol, PutWord(segment, off, 0));
    PutWordSum(segment, off, 0, |segment|);
  }

  /** A valid checksum is, modulo 0xffff, the complement of the rest; exchanging addresses keeps that. */
  lemma AdjustedSumCong(src: Addr6, dst: Addr6, src': Addr6, dst': Addr6, protocol: byte, segment: seq<byte>, off: nat)
    requires off % 2 == 0 && off + 2 <= |segment| < 0x1_0000_0000
    requires Verifies(Total6(src, dst, protocol, segment))
    ensures AdjustedSum(Word(segment, off), src, dst, src', dst') % 0xffff
         == Rest6(src', dst', protocol, segment, off) % 0xffff
  {
    var zeroed := PutWord(segment, off, 0);
    var checksum := Word(segment, off);
    RestAndField(src, dst, protocol, segment, off);
    Total6Sum(src, dst, protocol, zeroed);
    Total6Sum(src', dst', protocol, zeroed);
    ExchangeSumIs(src, src', 16);
    ExchangeSumIs(dst, dst', 16);
    VerifiesIffMultiple(Total6(src, dst, protocol, segment));
    var k := Total6(src, dst, protocol, segment) / 0xffff;
    var sum := AdjustedSum(checksum, src, dst, src', dst');
    var rest := Rest6(src', dst', protocol, segment, off);
    assert sum + 0xffff * k == rest + 0xffff * 17;
    AddMultiple(sum, k);
    AddMultiple(rest, 17);
  }

  /**
   Incremental repair is exact for a datagram never seen whole: whatever the rest of the segment
   holds, a checksum that verifies for the old pair verifies for the new pair after the adjustment.
   `c` ranges over both spellings of zero so that UDP's 0 -> 0xffff is covered.
   */
  lemma AdjustVerifies(src: Addr6, dst: Addr6, src': Addr6, dst': Addr6, protocol: byte, segment: seq<byte>, off: nat, c: uint16)
    requires protocol > 0 && off % 2 == 0 && off + 2 <= |segment| < 0x1_0000_0000
    requires Verifies(Total6(src, dst, protocol, segment))
    requires c % 0xffff == Adjust(Word(segment, off), src, dst, src', dst') % 0xffff
    ensures Verifies(Total6(src', dst', protocol, PutWord(segment, off, c)))
  {
    AdjustedSumCong(src, dst, src', dst', protocol, segment, off);
    ComplementCong(AdjustedSum(Word(segment, off), src, dst, src', dst'), Rest6(src', dst', protocol, segment, off));
    RecomputeVerifies6(src', dst', protocol, segment, off, c);
    assert PutWord(PutWord(segment, off, 0), off, c) == PutWord(segment, off, c);
  }

  /** The one input family on which an adjusted sum is zero rather than 0xffff. */
  predicate DegenerateExchange(checksum: uint16, src: Addr6, dst: Addr6, src': Addr6, dst': Addr6) {
    && checksum == 0xffff
    && (forall i :: 0 <= i < 16 ==> src[i] == 0xff && dst[i] == 0xff && src'[i] == 0 && dst'[i] == 0)
  }

  lemma {:induction false} ExchangeZero(was: Addr6, now: Addr6, n: nat)
    requires n <= 16 && n % 2 == 0
    ensures ExchangeSum(was, now, n) == 0 <==> forall i :: 0 <= i < n ==> was[i] == 0xff && now[i] == 0
  {
    if n > 0 { ExchangeZero(was, now, n - 2); }
  }

  lemma AdjustedSumZero(checksum: uint16, src: Addr6, dst: Addr6, src': Addr6, dst': Addr6)
    ensures AdjustedSum(checksum, src, dst, src', dst') == 0 <==> DegenerateExchange(checksum, src, dst, src', dst')
  {
    ExchangeZero(src, src', 16);
    ExchangeZero(dst, dst', 16);
  }

  /**
   The fast form agrees with the slow one: on a segment whose checksum verified, the adjusted
   checksum is the recomputed one, bit for bit, except on the degenerate family, where the
   adjustment gives 0xffff and the recompute 0.
   */
  lemma AdjustIsRecompute(src: Addr6, dst: Addr6, src': Addr6, dst': Addr6, protocol: byte, segment: seq<byte>, off: nat)
    requires protocol > 0 && off % 2 == 0 && off + 2 <= |segment| < 0x1_0000_0000
    requires Verifies(Total6(src, dst, protocol, segment))
    ensures var adjusted := Adjust(Word(segment, off), src, dst, src', dst');
            var recomputed := Complement(Fold(Rest6(src', dst', protocol, segment, off)));
            && adjusted % 0xffff == recomputed % 0xffff
            && (adjusted == recomputed <==> !DegenerateExchange(Word(segment, off), src, dst, src', dst'))
            && (adjusted != recomputed ==> adjusted == 0xffff && recomputed == 0)
  {
    var sum := AdjustedSum(Word(segment, off), src, dst, src', dst');
    var rest := Rest6(src', dst', protocol, segment, off);
    AdjustedSumCong(src, dst, src', dst', protocol, segment, off);
    AdjustedSumZero(Word(segment, off), src, dst, src', dst');
    Total6Sum(src', dst', protocol, PutWord(segment, off, 0));
    FoldMod(sum);
    FoldMod(rest);
    if sum > 0 { FoldCong(sum, rest); }
  }

  /** A segment that verifies between all-ones addresses, with 0xffff in its field: the family is not empty. */
  lemma DegenerateSegment() returns (ones: Addr6, zeros: Addr6, protocol: byte, segment: seq<byte>)
    ensures protocol > 0 && |segment| == 18 && Verifies(Total6(ones, ones, protocol, segment))
    ensures DegenerateExchange(Word(segment, 16), ones, ones, zeros, zeros)
    ensures Adjust(Word(segment, 16), ones, ones, zeros, zeros) == 0xffff
         && Complement(Fold(Rest6(zeros, zeros, protocol, segment, 16))) == 0
  {
    ones, zeros, protocol := seq(16, _ => 0xff), seq(16, _ => 0), 6;
    var filler: seq<byte> := seq(14, _ => 0);
    segment := [0xff, 0xe7] + filler + [0xff, 0xff];
    SumOfOnes(ones, 16);
    SumOfZeros(filler, 14);
    PrefixSumConcat([0xff, 0xe7], filler + [0xff, 0xff], 16);
    PrefixSumConcat(filler, [0xff, 0xff], 2);
    assert segment == [0xff, 0xe7] + (filler + [0xff, 0xff]);
    assert WordSum([0xff, 0xe7]) == 0xffe7 && WordSum([0xff, 0xff]) == 0xffff by {
      PrefixSumStep([0xff, 0xe7], 0);
      PrefixSumStep([0xff, 0xff], 0);
    }
    Total6Sum(ones, ones, protocol, segment);
    assert Total6(ones, ones, protocol, segment) == 0xffff * 18;
    AdjustIsRecompute(ones, ones, zeros, zeros, protocol, segment, 16);
  }

  lemma {:induction false} SumOfOnes(s: seq<byte>, n: nat)
    requires n <= |s| && n % 2 == 0 && forall i :: 0 <= i < n ==> s[i] == 0xff
    ensures PrefixSum(s, n) == 0xffff * (n / 2)
  {
    if n > 0 {
      SumOfOnes(s, n - 2);
      PrefixSumStep(s, n - 2);
    }
  }

  lemma {:induction false} SumOfZeros(s: seq<byte>, n: nat)
    requires n <= |s| && forall i :: 0 <= i < n ==> s[i] == 0
    ensures PrefixSum(s, n) == 0
  {
    if n > 0 { SumOfZeros(s, n - 1); }
  }

  /**
   Adjusting again for unchanged addresses leaves a checksum alone exactly when it is not 0xffff;
   a checksum of 0xffff becomes 0.
   */
  lemma AdjustSameAddresses(checksum: uint16, src: Addr6, dst: Addr6)
    ensures Adjust(checksum, src, dst, src, dst) == checksum <==> checksum != 0xffff
    ensures checksum == 0xffff ==> Adjust(checksum, src, dst, src, dst) == 0
  {
    ExchangeSumIs(src, src, 16);
    ExchangeSumIs(dst, dst, 16);
    var sum := AdjustedSum(checksum, src, dst, src, dst);
    assert sum == Complement(checksum) + 0xffff * 16;
    AddMultiple(Complement(checksum), 16);
    if checksum != 0xffff {
      FoldCong(sum, Complement(checksum));
    }
  }
}

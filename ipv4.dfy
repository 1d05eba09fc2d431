/** The 20-byte IPv4 header without options (section 3.1 of RFC 791, DPDK's
    struct rte_ipv4_hdr), the IPv4(a, b, c, d) address macro that both builders
    define, and the header checksum of RFC 1071 that rte_ipv4_cksum computes. */
module Ipv4 {
  import opened Bytes
  import Mbufs

  /** Size of an option-less header, sizeof(struct rte_ipv4_hdr). */
  const IPV4_HDR_LEN: nat := 20
  /** Offset of hdr_checksum inside the header. */
  const CHECKSUM_OFFSET: nat := 10

  /** Every multi-byte field holds its host value; Encode writes it in network order. */
  datatype Ipv4Header = Ipv4Header(
    versionIhl: uint8,
    typeOfService: uint8,
    totalLength: uint16,
    packetId: uint16,
    fragmentOffset: uint16,
    timeToLive: uint8,
    nextProtoId: uint8,
    hdrChecksum: uint16,
    srcAddr: uint32,
    dstAddr: uint32)

  function Encode(h: Ipv4Header): (b: seq<uint8>)
    ensures |b| == IPV4_HDR_LEN
  {
    [h.versionIhl, h.typeOfService] + Be16(h.totalLength) + Be16(h.packetId)
    + Be16(h.fragmentOffset) + [h.timeToLive, h.nextProtoId] + Be16(h.hdrChecksum)
    + Be32(h.srcAddr) + Be32(h.dstAddr)
  }

  function Decode(b: seq<uint8>): Ipv4Header
    requires |b| == IPV4_HDR_LEN
  {
    Ipv4Header(b[0], b[1], FromBe16(b[2..4]), FromBe16(b[4..6]), FromBe16(b[6..8]),
               b[8], b[9], FromBe16(b[10..12]), FromBe32(b[12..16]), FromBe32(b[16..20]))
  }

  lemma DecodeEncode(h: Ipv4Header)
    ensures Decode(Encode(h)) == h
  {
    var b := Encode(h);
    EncodeFields(h);
    assert b[2..4] == Be16(h.totalLength);
    assert b[4..6] == Be16(h.packetId);
    assert b[6..8] == Be16(h.fragmentOffset);
    assert b[10..12] == Be16(h.hdrChecksum);
    assert b[12..16] == Be32(h.srcAddr);
    assert b[16..20] == Be32(h.dstAddr);
    Be16RoundTrip(h.totalLength, b[2..4]);
    Be16RoundTrip(h.packetId, b[4..6]);
    Be16RoundTrip(h.fragmentOffset, b[6..8]);
    Be16RoundTrip(h.hdrChecksum, b[10..12]);
    Be32RoundTrip(h.srcAddr, b[12..16]);
    Be32RoundTrip(h.dstAddr, b[16..20]);
  }

  lemma EncodeDecode(b: seq<uint8>)
    requires |b| == IPV4_HDR_LEN
    ensures Encode(Decode(b)) == b
  {
    Be16RoundTrip(0, b[2..4]);
    Be16RoundTrip(0, b[4..6]);
    Be16RoundTrip(0, b[6..8]);
    Be16RoundTrip(0, b[10..12]);
    Be32RoundTrip(0, b[12..16]);
    Be32RoundTrip(0, b[16..20]);
    assert b == b[0..2] + b[2..4] + b[4..6] + b[6..8] + b[8..10] + b[10..12] + b[12..16] + b[16..20];
  }

  /** The IPv4(a, b, c, d) macro applied to plain arguments: the four low bytes
      packed into one 32-bit host value, a in the top byte. `x & 0xff` is
      `x % 0x100` for non-negative x, and the four shifted lanes do not overlap, so
      their `|` is their sum. The macro does not parenthesise its arguments, so a
      call whose argument is itself an expression (`port_id ^ 1` in the mesh
      generator) is not of this form; MeshSim.MeshDstAddr models that call. */
  function Address(a: nat, b: nat, c: nat, d: nat): uint32
  {
    (a % 0x100) * 0x100_0000 + (b % 0x100) * 0x1_0000 + (c % 0x100) * 0x100 + d % 0x100
  }

  /** Stored with rte_cpu_to_be_32, the address reads a.b.c.d on the wire. */
  lemma AddressOctets(a: nat, b: nat, c: nat, d: nat)
    ensures Be32(Address(a, b, c, d)) == [a % 0x100, b % 0x100, c % 0x100, d % 0x100]
  {
    var x := Address(a, b, c, d);
    assert x / 0x1_0000 == (a % 0x100) * 0x100 + b % 0x100;
    assert x % 0x1_0000 == (c % 0x100) * 0x100 + d % 0x100;
  }

  /** The address is determined by, and determines, the four octets. */
  lemma AddressInjective(a: nat, b: nat, c: nat, d: nat, a': nat, b': nat, c': nat, d': nat)
    ensures Address(a, b, c, d) == Address(a', b', c', d') <==>
            (a % 0x100 == a' % 0x100 && b % 0x100 == b' % 0x100 &&
             c % 0x100 == c' % 0x100 && d % 0x100 == d' % 0x100)
  {
    AddressOctets(a, b, c, d);
    AddressOctets(a', b', c', d');
  }

  // ---------------------------------------------------------------------------
  // Header checksum (RFC 1071)

  /** Sum of the big-endian 16-bit words of an even-length byte string. */
  function WordSum(h: seq<uint8>): nat
    requires |h| % 2 == 0
    decreases |h|
  {
    if |h| == 0 then 0 else FromBe16(h[..2]) + WordSum(h[2..])
  }

  /** Ones'-complement reduction: add the carries back in until 16 bits remain. */
  function Fold(s: nat): uint16
    decreases s
  {
    if s < 0x1_0000 then s
    else
      assert s / 0x1_0000 + s % 0x1_0000 < s;
      Fold(s / 0x1_0000 + s % 0x1_0000)
  }

  /** The value rte_ipv4_cksum returns, in network order: the ones' complement of the
      ones'-complement sum of the header's 16-bit words. */
  function Checksum(h: seq<uint8>): uint16
    requires |h| % 2 == 0
  {
    0xFFFF - Fold(WordSum(h))
  }

  /** The header with its checksum computed over its encoding with a zero checksum
      field, which is how both builders fill hdr_checksum. */
  function WithChecksum(h: Ipv4Header): (r: Ipv4Header)
    requires h.hdrChecksum == 0
    ensures r.hdrChecksum == Checksum(Encode(h))
    ensures r.(hdrChecksum := 0) == h
  {
    h.(hdrChecksum := Checksum(Encode(h)))
  }

  /** ip->hdr_checksum = rte_ipv4_cksum(ip) on the header at offset off of a
      buffer: the checksum of the 20 bytes as they stand (checksum field zero),
      stored in network order in bytes 10-11. */
  method FillChecksum(d: array<uint8>, off: nat, ghost h: Ipv4Header)
    requires h.hdrChecksum == 0
    requires off + IPV4_HDR_LEN <= d.Length && d[off..off + IPV4_HDR_LEN] == Encode(h)
    modifies d
    ensures d[off..off + IPV4_HDR_LEN] == Encode(WithChecksum(h))
    ensures forall i :: 0 <= i < d.Length && !(off <= i < off + IPV4_HDR_LEN) ==> d[i] == old(d[i])
  {
    ghost var before := d[off..off + IPV4_HDR_LEN];
    var ck := Checksum(d[off..off + IPV4_HDR_LEN]);
    Mbufs.Store(d, off + CHECKSUM_OFFSET, Be16(ck));
    assert d[off..off + IPV4_HDR_LEN] == before[..10] + Be16(ck) + before[12..];
    SetChecksumField(h, ck);
  }

  /** Giving the header a checksum changes exactly bytes 10-11 of its encoding. */
  lemma SetChecksumField(h: Ipv4Header, c: uint16)
    ensures Encode(h.(hdrChecksum := c)) == Encode(h)[..10] + Be16(c) + Encode(h)[12..]
  {
    EncodeFields(h);
    EncodeFields(h.(hdrChecksum := c));
  }

  /** Twenty bytes of a buffer that hold each field of h at its position, in
      network order, are h's encoding. */
  lemma FieldsEncode(d: array<uint8>, off: nat, h: Ipv4Header)
    requires off + IPV4_HDR_LEN <= d.Length
    requires d[off] == h.versionIhl && d[off + 1] == h.typeOfService
    requires d[off + 2] == h.totalLength / 0x100 && d[off + 3] == h.totalLength % 0x100
    requires d[off + 4] == h.packetId / 0x100 && d[off + 5] == h.packetId % 0x100
    requires d[off + 6] == h.fragmentOffset / 0x100 && d[off + 7] == h.fragmentOffset % 0x100
    requires d[off + 8] == h.timeToLive && d[off + 9] == h.nextProtoId
    requires d[off + 10] == h.hdrChecksum / 0x100 && d[off + 11] == h.hdrChecksum % 0x100
    requires d[off + 12..off + 16] == Be32(h.srcAddr) && d[off + 16..off + 20] == Be32(h.dstAddr)
    ensures d[off..off + IPV4_HDR_LEN] == Encode(h)
  {
    var b := d[off..off + IPV4_HDR_LEN];
    assert b[12..16] == d[off + 12..off + 16] && b[16..20] == d[off + 16..off + 20];
    assert b == [b[0], b[1]] + [b[2], b[3]] + [b[4], b[5]] + [b[6], b[7]] + [b[8], b[9]] + [b[10], b[11]] + b[12..16] + b[16..20];
  }

  /** Field positions in the encoding (section 3.1 of RFC 791). */
  lemma EncodeFields(h: Ipv4Header)
    ensures var b := Encode(h);
      && b[0] == h.versionIhl && b[1] == h.typeOfService
      && b[2..4] == Be16(h.totalLength) && b[4..6] == Be16(h.packetId)
      && b[6..8] == Be16(h.fragmentOffset) && b[8] == h.timeToLive && b[9] == h.nextProtoId
      && b[10..12] == Be16(h.hdrChecksum) && b[12..16] == Be32(h.srcAddr) && b[16..20] == Be32(h.dstAddr)
  {
  }

  /** Filling hdr_checksum changes only bytes 10-11, and what they hold is the
      checksum of the header bytes with those two bytes zero. */
  lemma ChecksumOverZeroedField(h: Ipv4Header)
    requires h.hdrChecksum == 0
    ensures var b := Encode(WithChecksum(h));
      && b[..10] == Encode(h)[..10] && b[12..] == Encode(h)[12..]
      && b[10..12] == Be16(Checksum(b[..10] + [0, 0] + b[12..]))
  {
    var b, b0 := Encode(WithChecksum(h)), Encode(h);
    EncodeFields(h);
    EncodeFields(WithChecksum(h));
    assert b[..10] == b0[..10];
    assert b[12..] == b0[12..];
    assert b0 == b0[..10] + b0[10..12] + b0[12..];
  }

  lemma {:induction false} WordSumAppend(a: seq<uint8>, b: seq<uint8>)
    requires |a| % 2 == 0 && |b| % 2 == 0
    ensures WordSum(a + b) == WordSum(a) + WordSum(b)
    decreases |a|
  {
    if |a| == 0 {
      assert a + b == b;
    } else {
      assert (a + b)[..2] == a[..2];
      assert (a + b)[2..] == a[2..] + b;
      WordSumAppend(a[2..], b);
    }
  }

  /** Folding keeps the value modulo 0xFFFF and keeps a non-zero sum non-zero. */
  lemma {:induction false} FoldCongruent(s: nat)
    ensures Fold(s) % 0xFFFF == s % 0xFFFF
    ensures s > 0 ==> Fold(s) > 0
    decreases s
  {
    if s >= 0x1_0000 {
      var q, r := s / 0x1_0000, s % 0x1_0000;
      assert s == q * 0x1_0000 + r;
      assert s == q * 0xFFFF + (q + r);
      assert s % 0xFFFF == (q + r) % 0xFFFF;
      FoldCongruent(q + r);
    }
  }

  lemma WordSumOfWord(w: seq<uint8>)
    requires |w| == 2
    ensures WordSum(w) == FromBe16(w)
  {
    assert w[2..] == [];
  }

  lemma WordSumAppend3(p: seq<uint8>, w: seq<uint8>, t: seq<uint8>)
    requires |p| % 2 == 0 && |w| == 2 && |t| % 2 == 0
    ensures WordSum(p + w + t) == WordSum(p) + FromBe16(w) + WordSum(t)
  {
    WordSumAppend(p + w, t);
    WordSumAppend(p, w);
    WordSumOfWord(w);
  }

  /** The word sum with a 16-bit value placed in a word that was zero. */
  lemma WordSumWithField(p: seq<uint8>, t: seq<uint8>, v: uint16)
    requires |p| % 2 == 0 && |t| % 2 == 0
    ensures WordSum(p + Be16(v) + t) == WordSum(p + [0, 0] + t) + v
  {
    EvenWithWord(p, Be16(v), t);
    EvenWithWord(p, [0, 0], t);
    WordSumAppend3(p, Be16(v), t);
    Be16RoundTrip(v, Be16(v));
    WordSumAppend3(p, [0, 0], t);
  }

  /** A positive multiple of 0xFFFF folds to 0xFFFF ("negative zero"). */
  lemma FoldOfMultiple(x: nat)
    requires x > 0 && x % 0xFFFF == 0
    ensures Fold(x) == 0xFFFF
  {
    FoldCongruent(x);
  }

  lemma ModShift(a: nat, b: nat, c: nat)
    requires a % 0xFFFF == b % 0xFFFF
    ensures (a + c) % 0xFFFF == (b + c) % 0xFFFF
  {
    var qa, qb := a / 0xFFFF, b / 0xFFFF;
    assert a + c == qa * 0xFFFF + (a % 0xFFFF + c);
    assert b + c == qb * 0xFFFF + (b % 0xFFFF + c);
  }

  lemma EvenWithWord(p: seq<uint8>, w: seq<uint8>, t: seq<uint8>)
    requires |p| % 2 == 0 && |w| == 2 && |t| % 2 == 0
    ensures |p + w + t| % 2 == 0
  {
    var a, b := |p| / 2, |t| / 2;
    assert |p + w + t| == 2 * (a + b + 1);
  }

  /** Adding the complement of a folded sum yields ones'-complement "negative zero". */
  lemma FoldComplement(s: nat)
    ensures Fold(s + (0xFFFF - Fold(s))) == 0xFFFF
  {
    var f := Fold(s);
    var c := 0xFFFF - f;
    FoldCongruent(s);
    if s == 0 {
      assert s + c == 0xFFFF;
    } else {
      ModShift(f, s, c);
      assert (f + c) % 0xFFFF == 0;
      FoldOfMultiple(s + c);
    }
  }

  /** RFC 1071 receiver check: once the checksum computed over words p, 0, t is
      stored in the zero word, the ones'-complement sum of all words is 0xFFFF. */
  lemma ChecksumVerifies(p: seq<uint8>, t: seq<uint8>)
    requires |p| % 2 == 0 && |t| % 2 == 0
    ensures Fold(WordSum(p + Be16(Checksum(p + [0, 0] + t)) + t)) == 0xFFFF
  {
    EvenWithWord(p, [0, 0], t);
    var s := WordSum(p + [0, 0] + t);
    WordSumWithField(p, t, Checksum(p + [0, 0] + t));
    FoldComplement(s);
  }

  /** A header whose checksum was filled the way both builders fill it passes the
      receiver's check: the ones'-complement sum of its ten words is 0xFFFF. */
  lemma WithChecksumVerifies(h: Ipv4Header)
    requires h.hdrChecksum == 0
    ensures Fold(WordSum(Encode(WithChecksum(h)))) == 0xFFFF
  {
    var b0 := Encode(h);
    var ck := Checksum(b0);
    EncodeFields(h);
    assert b0 == b0[..10] + [0, 0] + b0[12..];
    SetChecksumField(h, ck);
    ChecksumVerifies(b0[..10], b0[12..]);
  }
}

/** The 14-byte Ethernet II header that both packet builders write first
    (DPDK's struct rte_ether_hdr: destination MAC, source MAC, ethertype). */
module Ethernet {
  import opened Bytes
  import Mbufs

  const RTE_ETHER_ADDR_LEN: nat := 6
  const RTE_ETHER_HDR_LEN: nat := 14
  const RTE_ETHER_TYPE_IPV4: uint16 := 0x0800

  datatype EtherHeader = EtherHeader(dstAddr: seq<uint8>, srcAddr: seq<uint8>, etherType: uint16)

  ghost predicate Valid(h: EtherHeader)
  {
    |h.dstAddr| == RTE_ETHER_ADDR_LEN && |h.srcAddr| == RTE_ETHER_ADDR_LEN
  }

  /** A MAC address made of one repeated byte, as memset(addr_bytes, v, 6) leaves it. */
  function FilledAddr(v: uint8): (a: seq<uint8>)
    ensures |a| == RTE_ETHER_ADDR_LEN
    ensures forall i :: 0 <= i < |a| ==> a[i] == v
  {
    [v, v, v, v, v, v]
  }

  /** Wire form: destination, source, then the ethertype in network byte order. */
  function Encode(h: EtherHeader): (b: seq<uint8>)
    requires Valid(h)
    ensures |b| == RTE_ETHER_HDR_LEN
  {
    h.dstAddr + h.srcAddr + Be16(h.etherType)
  }

  function Decode(b: seq<uint8>): (h: EtherHeader)
    requires |b| == RTE_ETHER_HDR_LEN
    ensures Valid(h)
  {
    EtherHeader(b[..6], b[6..12], FromBe16(b[12..]))
  }

  lemma DecodeEncode(h: EtherHeader)
    requires Valid(h)
    ensures Decode(Encode(h)) == h
  {
    var b := Encode(h);
    assert b[..6] == h.dstAddr;
    assert b[6..12] == h.srcAddr;
    assert b[12..] == Be16(h.etherType);
    Be16RoundTrip(h.etherType, b[12..]);
  }

  lemma EncodeDecode(b: seq<uint8>)
    requires |b| == RTE_ETHER_HDR_LEN
    ensures Encode(Decode(b)) == b
  {
    Be16RoundTrip(0, b[12..]);
    assert b == b[..6] + b[6..12] + b[12..];
  }

  /** The header both packet builders write: broadcast destination, source
      aa:aa:aa:aa:aa:aa, ethertype IPv4. */
  function BuilderHeader(): (h: EtherHeader)
    ensures Valid(h)
  {
    EtherHeader(FilledAddr(0xff), FilledAddr(0xaa), RTE_ETHER_TYPE_IPV4)
  }

  /** The three Ethernet statements of both builders, on the buffer's first bytes:
      memset of the destination to 0xff, of the source to 0xaa, and the
      ethertype stored with rte_cpu_to_be_16. */
  method WriteBuilderHeader(d: array<uint8>)
    requires RTE_ETHER_HDR_LEN <= d.Length
    modifies d
    ensures d[..RTE_ETHER_HDR_LEN] == Encode(BuilderHeader())
    ensures forall i :: RTE_ETHER_HDR_LEN <= i < d.Length ==> d[i] == old(d[i])
  {
    Mbufs.Memset(d, 0, 0xff, RTE_ETHER_ADDR_LEN);
    Mbufs.Memset(d, 6, 0xaa, RTE_ETHER_ADDR_LEN);
    Mbufs.Store(d, 12, Be16(RTE_ETHER_TYPE_IPV4));
    assert d[..RTE_ETHER_HDR_LEN] == Encode(BuilderHeader());
  }
}

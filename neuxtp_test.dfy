/** The 8-byte NeuXTP header of the test program (struct neuxtp_hdr in
    neuxtp_test.c): version, flags, ai_tag, priority, then a 32-bit session_id
    that the writer converts to network order. */
module TestHeader {
  import opened Bytes

  const TEST_HDR_LEN: nat := 8

  /** sessionId holds the host value; Encode puts it on the wire big-endian. */
  datatype TestHdr = TestHdr(version: uint8, flags: uint8, aiTag: uint8, priority: uint8, sessionId: uint32)

  /** The packed layout: version 0, flags 1, ai_tag 2, priority 3, session_id 4-7. */
  function Encode(h: TestHdr): (b: seq<uint8>)
    ensures |b| == TEST_HDR_LEN
  {
    [h.version, h.flags, h.aiTag, h.priority] + Be32(h.sessionId)
  }

  function Decode(b: seq<uint8>): TestHdr
    requires |b| == TEST_HDR_LEN
  {
    TestHdr(b[0], b[1], b[2], b[3], FromBe32(b[4..]))
  }

  lemma DecodeEncode(h: TestHdr)
    ensures Decode(Encode(h)) == h
  {
    assert Encode(h)[4..] == Be32(h.sessionId);
    Be32RoundTrip(h.sessionId, Be32(h.sessionId));
  }

  lemma EncodeDecode(b: seq<uint8>)
    requires |b| == TEST_HDR_LEN
    ensures Encode(Decode(b)) == b
  {
    Be32RoundTrip(0, b[4..]);
    assert b == b[..4] + b[4..];
  }
}

/** neuxtp_test.c: builds five NeuXTP packets with different tags and priorities
    and frees each one straight away. */
module NeuxtpTest {
  import opened Bytes
  import Ethernet
  import Ipv4
  import TestHeader
  import opened Mbufs

  /** NEUXTP_PROTO_ID, the IPv4 protocol number for NeuXTP (RFC 3692 experimental). */
  const NEUXTP_PROTO_ID: uint8 := 0xFD
  /** pkt_size = sizeof(struct rte_ether_hdr) + sizeof(struct rte_ipv4_hdr) + sizeof(struct neuxtp_hdr). */
  const TEST_PKT_LEN: nat := Ethernet.RTE_ETHER_HDR_LEN + Ipv4.IPV4_HDR_LEN + TestHeader.TEST_HDR_LEN
  /** The number of build attempts simulate_neuxtp_tests makes. */
  const NUM_TESTS: nat := 5
  /** The fixed addresses the builder writes, IPv4(10, 0, 0, 1) and IPv4(10, 0, 0, 2)
      (TestAddresses shows they are the macro's values). */
  const TEST_SRC_ADDR: uint32 := 0x0A00_0001
  const TEST_DST_ADDR: uint32 := 0x0A00_0002

  // ---------------------------------------------------------------------------
  // What build_neuxtp_packet writes

  /** The IPv4 header when rte_ipv4_cksum is called: zeroed by the memset, then
      version_ihl, total_length, TTL, protocol and both addresses written. */
  function TestIpBeforeChecksum(): (h: Ipv4.Ipv4Header)
    ensures h.hdrChecksum == 0
  {
    Ipv4.Ipv4Header(
      versionIhl := 0x45, typeOfService := 0,
      totalLength := Ipv4.IPV4_HDR_LEN + TestHeader.TEST_HDR_LEN,
      packetId := 0, fragmentOffset := 0, timeToLive := 64,
      nextProtoId := NEUXTP_PROTO_ID, hdrChecksum := 0,
      srcAddr := TEST_SRC_ADDR, dstAddr := TEST_DST_ADDR)
  }

  /** The NeuXTP header: version 1, flags 0, session_id what rand() returned. */
  function TestNeuxtp(aiTag: uint8, priority: uint8, rand: uint32): TestHeader.TestHdr
  {
    TestHeader.TestHdr(1, 0, aiTag, priority, rand)
  }

  /** The first TEST_PKT_LEN bytes of a packet built by build_neuxtp_packet. */
  function TestFrame(aiTag: uint8, priority: uint8, rand: uint32): (f: seq<uint8>)
    ensures |f| == TEST_PKT_LEN
  {
    Ethernet.Encode(Ethernet.BuilderHeader())
    + Ipv4.Encode(Ipv4.WithChecksum(TestIpBeforeChecksum()))
    + TestHeader.Encode(TestNeuxtp(aiTag, priority, rand))
  }

  /** The IPv4 statements of build_neuxtp_packet on the header at offset 14: a
      memset of the whole header to 0, five field stores, then the checksum over
      the 20 header bytes as they stand. */
  method WriteTestIpv4(d: array<uint8>)
    requires TEST_PKT_LEN <= d.Length
    modifies d
    ensures d[14..34] == Ipv4.Encode(Ipv4.WithChecksum(TestIpBeforeChecksum()))
    ensures forall i :: 0 <= i < d.Length && !(14 <= i < 34) ==> d[i] == old(d[i])
  {
    Memset(d, 14, 0, Ipv4.IPV4_HDR_LEN);
    d[14] := 0x45;
    Store(d, 16, Be16(Ipv4.IPV4_HDR_LEN + TestHeader.TEST_HDR_LEN));
    d[22] := 64;
    d[23] := NEUXTP_PROTO_ID;
    Store(d, 26, Be32(TEST_SRC_ADDR));
    Store(d, 30, Be32(TEST_DST_ADDR));
    Ipv4.FieldsEncode(d, 14, TestIpBeforeChecksum());
    Ipv4.FillChecksum(d, 14, TestIpBeforeChecksum());
  }

  /** The NeuXTP statements of build_neuxtp_packet on the header at offset 34. */
  method WriteTestNeuxtp(d: array<uint8>, aiTag: uint8, priority: uint8, rand: uint32)
    requires TEST_PKT_LEN <= d.Length
    modifies d
    ensures d[34..42] == TestHeader.Encode(TestNeuxtp(aiTag, priority, rand))
    ensures forall i :: 0 <= i < d.Length && !(34 <= i < 42) ==> d[i] == old(d[i])
  {
    d[34] := 1;
    d[35] := 0;
    d[36] := aiTag;
    d[37] := priority;
    Store(d, 38, Be32(rand));
    assert d[34..42] == TestHeader.Encode(TestNeuxtp(aiTag, priority, rand));
  }

  /** The three header blocks of build_neuxtp_packet, in the order it writes them, on the
      data of the buffer; bytes past the frame are left alone. */
  method WriteTestPacket(d: array<uint8>, aiTag: uint8, priority: uint8, rand: uint32)
    requires TEST_PKT_LEN <= d.Length
    modifies d
    ensures d[..TEST_PKT_LEN] == TestFrame(aiTag, priority, rand)
    ensures forall i :: TEST_PKT_LEN <= i < d.Length ==> d[i] == old(d[i])
  {
    Ethernet.WriteBuilderHeader(d);
    ghost var eth := d[..14];
    WriteTestIpv4(d);
    assert d[..14] == eth;
    ghost var ip := d[14..34];
    WriteTestNeuxtp(d, aiTag, priority, rand);
    assert d[..14] == eth && d[14..34] == ip;
    TestFrameOfParts(d[..TEST_PKT_LEN], aiTag, priority, rand);
  }

  /** Bytes holding the three headers in place are the frame. */
  lemma TestFrameOfParts(f: seq<uint8>, aiTag: uint8, priority: uint8, rand: uint32)
    requires |f| == TEST_PKT_LEN
    requires f[..14] == Ethernet.Encode(Ethernet.BuilderHeader())
    requires f[14..34] == Ipv4.Encode(Ipv4.WithChecksum(TestIpBeforeChecksum()))
    requires f[34..] == TestHeader.Encode(TestNeuxtp(aiTag, priority, rand))
    ensures f == TestFrame(aiTag, priority, rand)
  {
    assert f == f[..14] + f[14..34] + f[34..];
  }

  /** build_neuxtp_packet; rand is what rand() returns. On allocation failure it
      returns null and the pool is unchanged. */
  method BuildNeuxtpPacket(pool: Pool, aiTag: uint8, priority: uint8, rand: uint32) returns (m: Mbuf?)
    requires pool.Valid()
    modifies pool
    ensures pool.Valid()
    ensures m == null <==> old(pool.avail) == 0
    ensures m == null ==> pool.avail == old(pool.avail) && pool.Out == old(pool.Out)
    ensures m != null ==>
              && fresh(m) && pool.Out == old(pool.Out) + {m} && pool.avail == old(pool.avail) - 1
              && m.dataLen as int == m.pktLen as int == TEST_PKT_LEN
              && m.data.Length >= TEST_PKT_LEN
              && m.data[..TEST_PKT_LEN] == TestFrame(aiTag, priority, rand)
  {
    var pktSize: uint16 := Ethernet.RTE_ETHER_HDR_LEN + Ipv4.IPV4_HDR_LEN + TestHeader.TEST_HDR_LEN;
    m := pool.Alloc();
    if m == null {
      return;
    }
    m.dataLen := pktSize;
    m.pktLen := pktSize;
    WriteTestPacket(m.data, aiTag, priority, rand);
  }

  // ---------------------------------------------------------------------------
  // What a built packet holds

  /** IPv4 at 14: everything the memset cleared and nothing overwrote is zero (TOS,
      id, fragment offset), total_length is 28 big-endian, the protocol byte is
      0xFD, the addresses read 10.0.0.1 and 10.0.0.2, and the checksum field holds
      the checksum of the header as it stood with that field still zero. */
  lemma TestFrameIpv4(aiTag: uint8, priority: uint8, rand: uint32)
    ensures var ip := TestFrame(aiTag, priority, rand)[14..34];
      && ip[0] == 0x45 && ip[1] == 0
      && ip[2..4] == [0, 28]
      && ip[4..6] == [0, 0] && ip[6..8] == [0, 0]
      && ip[8] == 64 && ip[9] == 0xFD
      && ip[12..16] == [10, 0, 0, 1]
      && ip[16..20] == [10, 0, 0, 2]
      && ip[10..12] == Be16(Ipv4.Checksum(Ipv4.Encode(TestIpBeforeChecksum())))
  {
    var ip := TestFrame(aiTag, priority, rand)[14..34];
    assert ip == Ipv4.Encode(Ipv4.WithChecksum(TestIpBeforeChecksum()));
    Ipv4.EncodeFields(Ipv4.WithChecksum(TestIpBeforeChecksum()));
    TestAddresses();
  }

  /** The IPv4 header of a test packet passes the receiver's checksum test. */
  lemma TestFrameChecksumValid(aiTag: uint8, priority: uint8, rand: uint32)
    ensures Ipv4.Fold(Ipv4.WordSum(TestFrame(aiTag, priority, rand)[14..34])) == 0xFFFF
  {
    var ip := TestFrame(aiTag, priority, rand)[14..34];
    assert ip == Ipv4.Encode(Ipv4.WithChecksum(TestIpBeforeChecksum()));
    Ipv4.WithChecksumVerifies(TestIpBeforeChecksum());
  }

  /** The two addresses are IPv4(10, 0, 0, 1) and IPv4(10, 0, 0, 2), and on the
      wire they read 10.0.0.1 and 10.0.0.2. */
  lemma TestAddresses()
    ensures TEST_SRC_ADDR == Ipv4.Address(10, 0, 0, 1) && TEST_DST_ADDR == Ipv4.Address(10, 0, 0, 2)
    ensures Be32(TEST_SRC_ADDR) == [10, 0, 0, 1] && Be32(TEST_DST_ADDR) == [10, 0, 0, 2]
  {
    assert Be16(0x0A00) == [10, 0] && Be16(1) == [0, 1] && Be16(2) == [0, 2];
  }

  /** NeuXTP at 34: version 1, flags 0, ai_tag and priority as given, and the
      big-endian bytes of the rand() value. */
  lemma TestFrameNeuxtp(aiTag: uint8, priority: uint8, rand: uint32)
    ensures var f := TestFrame(aiTag, priority, rand);
      && f[34] == 1 && f[35] == 0 && f[36] == aiTag && f[37] == priority
      && f[38..42] == Be32(rand)
      && TestHeader.Decode(f[34..42]) == TestHeader.TestHdr(1, 0, aiTag, priority, rand)
  {
    var f := TestFrame(aiTag, priority, rand);
    assert f[34..42] == TestHeader.Encode(TestNeuxtp(aiTag, priority, rand));
    TestHeader.DecodeEncode(TestNeuxtp(aiTag, priority, rand));
  }

  // ---------------------------------------------------------------------------
  // simulate_neuxtp_tests

  /** One loop iteration as the program reports it: the tag and priority it asked
      for and whether a packet was created. */
  datatype Attempt = Attempt(aiTag: uint8, priority: uint8, created: bool)

  /** simulate_neuxtp_tests. rands holds the successive values rand() returns; one
      is consumed per packet actually built. Every packet built is freed in the
      same iteration, so the pool ends as it started, and since each iteration
      returns what it took, either all five attempts succeed or none does. built
      holds the frame of each packet built, in order: packet i carries tag i,
      priority 5 - i and the i-th rand value. */
  method SimulateNeuxtpTests(pool: Pool, rands: seq<uint32>) returns (log: seq<Attempt>, ghost built: seq<seq<uint8>>)
    requires pool.Valid() && |rands| >= NUM_TESTS
    modifies pool
    ensures pool.Valid()
    ensures pool.avail == old(pool.avail) && pool.Out == old(pool.Out)
    ensures |log| == NUM_TESTS
    ensures forall i :: 0 <= i < NUM_TESTS ==>
              log[i] == Attempt(i, NUM_TESTS - i, old(pool.avail) > 0)
    ensures |built| == if old(pool.avail) > 0 then NUM_TESTS else 0
    ensures forall i :: 0 <= i < |built| ==> built[i] == TestFrame(i, NUM_TESTS - i, rands[i])
  {
    log, built := [], [];
    var next := 0;
    for i := 0 to NUM_TESTS
      invariant pool.Valid() && pool.avail == old(pool.avail) && pool.Out == old(pool.Out)
      invariant |log| == i && next <= i
      invariant forall k :: 0 <= k < i ==> log[k] == Attempt(k, NUM_TESTS - k, old(pool.avail) > 0)
      invariant |built| == next && next == if old(pool.avail) > 0 then i else 0
      invariant forall k :: 0 <= k < next ==> built[k] == TestFrame(k, NUM_TESTS - k, rands[k])
    {
      var pkt := BuildNeuxtpPacket(pool, i, NUM_TESTS - i, rands[next]);
      if pkt != null {
        built := built + [pkt.data[..TEST_PKT_LEN]];
        next := next + 1;
        log := log + [Attempt(i, NUM_TESTS - i, true)];
        pool.Free(pkt);
      } else {
        log := log + [Attempt(i, NUM_TESTS - i, false)];
      }
    }
  }
}

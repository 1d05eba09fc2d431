/** The 16-byte NeuXTP header of the mesh traffic generator (struct neuxtp_hdr in
    neuxtp_mesh_sim.c). The generator stores its multi-byte fields without a byte
    swap, so in memory they are in host order, little-endian on the x86 hosts
    DPDK runs on. */
module MeshHeader {
  import opened Bytes

  const MESH_HDR_LEN: nat := 16

  datatype MeshHdr = MeshHdr(aiTag: uint8, priority: uint8, flags: uint16, sessionId: uint32, timestamp: uint64)

  /** The packed layout: ai_tag at 0, priority at 1, flags at 2-3, session_id at 4-7,
      timestamp at 8-15. */
  function Encode(h: MeshHdr): (b: seq<uint8>)
    ensures |b| == MESH_HDR_LEN
  {
    [h.aiTag, h.priority] + Le16(h.flags) + Le32(h.sessionId) + Le64(h.timestamp)
  }

  function Decode(b: seq<uint8>): MeshHdr
    requires |b| == MESH_HDR_LEN
  {
    MeshHdr(b[0], b[1], FromLe16(b[2..4]), FromLe32(b[4..8]), FromLe64(b[8..16]))
  }

  lemma DecodeEncode(h: MeshHdr)
    ensures Decode(Encode(h)) == h
  {
    var b := Encode(h);
    assert b == [h.aiTag, h.priority] + Le16(h.flags) + Le32(h.sessionId) + Le64(h.timestamp);
    assert b[2..4] == Le16(h.flags);
    assert b[4..8] == Le32(h.sessionId);
    assert b[8..16] == Le64(h.timestamp);
    Le16RoundTrip(h.flags, b[2..4]);
    Le32RoundTrip(h.sessionId, b[4..8]);
    Le64RoundTrip(h.timestamp, b[8..16]);
  }

  lemma EncodeDecode(b: seq<uint8>)
    requires |b| == MESH_HDR_LEN
    ensures Encode(Decode(b)) == b
  {
    Le16RoundTrip(0, b[2..4]);
    Le32RoundTrip(0, b[4..8]);
    Le64RoundTrip(0, b[8..16]);
    assert b == b[..2] + b[2..4] + b[4..8] + b[8..16];
  }
}

/** neuxtp_mesh_sim.c: every worker core builds NeuXTP packets tagged with its own
    core id and sends them on its own (port, tx queue). */
module MeshSim {
  import opened Bytes
  import Ethernet
  import Ipv4
  import MeshHeader
  import NeuxtpHdr
  import opened Mbufs

  /** The protocol number the generator writes, 253 (experimental use, RFC 3692). */
  const NEUXTP_IP_PROTO: uint8 := 253
  /** data_len = sizeof(*eth) + sizeof(*ip) + sizeof(*neu). */
  const MESH_PKT_LEN: nat := Ethernet.RTE_ETHER_HDR_LEN + Ipv4.IPV4_HDR_LEN + MeshHeader.MESH_HDR_LEN

  // ---------------------------------------------------------------------------
  // What build_neuxtp_pkt writes

  /** port_id ^ 1: the port number with its lowest bit inverted. */
  function FlipLowBit(p: uint16): uint16
  {
    if p % 2 == 0 then p + 1 else p - 1
  }

  /** Flipping bit 0 changes the parity of the low byte and leaves the high byte. */
  lemma FlipLowBitBytes(p: uint16)
    ensures FlipLowBit(p) / 0x100 == p / 0x100
    ensures (p % 0x100) % 2 != (FlipLowBit(p) % 0x100) % 2
  {
    var h, l := p / 0x100, p % 0x100;
    assert l % 2 == p % 2;
    if p % 2 == 0 {
      ByteSplit(p + 1, h, l + 1);
    } else {
      ByteSplit(p - 1, h, l - 1);
    }
  }

  /** A helper: the quotient and remainder by 0x100 of `h * 0x100 + l`. */
  lemma ByteSplit(x: int, h: int, l: int)
    requires 0 <= l < 0x100 && x == h * 0x100 + l
    ensures x / 0x100 == h && x % 0x100 == l
  {
  }

  /** The destination build_neuxtp_pkt stores, IPv4(10, 0, port_id ^ 1, 1) as the
      macro expands it: the argument is pasted unparenthesised into
      `(c & 0xff) << 8`, and `&` binds tighter than `^`, so the lane is
      `(port_id ^ 1) << 8` with nothing masked. The lanes still do not overlap,
      so the `|` is a sum, and it stays below 2^32. */
  function MeshDstAddr(p: uint16): uint32
  {
    0x0A00_0001 + FlipLowBit(p) * 0x100
  }

  /** The destination the macro call evidently means: 10.0.((port_id ^ 1) & 0xff).1. */
  function IntendedDstAddr(p: uint16): uint32
  {
    Ipv4.Address(10, 0, FlipLowBit(p), 1)
  }

  /** On the wire the stored destination reads 10.(port_id >> 8).((port_id & 0xff) ^ 1).1:
      the high byte of the port lands in the second octet. */
  lemma MeshDstAddrOctets(p: uint16)
    ensures Be32(MeshDstAddr(p)) == [10, p / 0x100, FlipLowBit(p) % 0x100, 1]
  {
    var q := FlipLowBit(p);
    FlipLowBitBytes(p);
    assert MeshDstAddr(p) == Ipv4.Address(10, p / 0x100, q, 1);
    Ipv4.AddressOctets(10, p / 0x100, q, 1);
  }

  /** The stored and the intended destination agree exactly for ports below 256. */
  lemma MeshDstAddrAsIntended(p: uint16)
    ensures MeshDstAddr(p) == IntendedDstAddr(p) <==> p < 0x100
  {
    var stored, meant := MeshDstAddr(p), IntendedDstAddr(p);
    MeshDstAddrOctets(p);
    Ipv4.AddressOctets(10, 0, FlipLowBit(p), 1);
    Be32RoundTrip(stored, Be32(meant));
    Be32RoundTrip(meant, Be32(stored));
    assert stored == meant <==> Be32(stored) == Be32(meant);
  }

  /** Port 256: the packet goes to 10.1.1.1 where 10.0.1.1 is meant. */
  lemma MeshDstAddrPort256()
    ensures Be32(MeshDstAddr(256)) == [10, 1, 1, 1]
    ensures Be32(IntendedDstAddr(256)) == [10, 0, 1, 1]
  {
    MeshDstAddrOctets(256);
    Ipv4.AddressOctets(10, 0, FlipLowBit(256), 1);
  }

  /** The IPv4 header as it is when rte_ipv4_cksum is called: checksum field zero. */
  function MeshIpBeforeChecksum(portId: uint16): (h: Ipv4.Ipv4Header)
    ensures h.hdrChecksum == 0
  {
    Ipv4.Ipv4Header(
      versionIhl := 0x45, typeOfService := 0,
      totalLength := Ipv4.IPV4_HDR_LEN + MeshHeader.MESH_HDR_LEN,
      packetId := 0, fragmentOffset := 0, timeToLive := 64,
      nextProtoId := NEUXTP_IP_PROTO, hdrChecksum := 0,
      srcAddr := Ipv4.Address(10, 0, portId, 1),
      dstAddr := MeshDstAddr(portId))
  }

  /** The NeuXTP header: session_id is the 64-bit TSC read truncated to 32 bits. */
  function MeshNeuxtp(aiTag: uint8, priority: uint8, tsc: uint64, tscPrecise: uint64): MeshHeader.MeshHdr
  {
    MeshHeader.MeshHdr(aiTag, priority, 0, tsc % 0x1_0000_0000, tscPrecise)
  }

  /** The first MESH_PKT_LEN bytes of a packet built by build_neuxtp_pkt. */
  function MeshFrame(aiTag: uint8, priority: uint8, portId: uint16, tsc: uint64, tscPrecise: uint64): (f: seq<uint8>)
    ensures |f| == MESH_PKT_LEN
  {
    Ethernet.Encode(Ethernet.BuilderHeader())
    + Ipv4.Encode(Ipv4.WithChecksum(MeshIpBeforeChecksum(portId)))
    + MeshHeader.Encode(MeshNeuxtp(aiTag, priority, tsc, tscPrecise))
  }

  /** The IPv4 statements of build_neuxtp_pkt on the header at offset 14: every
      field stored in turn with hdr_checksum = 0, then rte_ipv4_cksum over the
      20 header bytes as they stand and its result stored in hdr_checksum. */
  method WriteMeshIpv4(d: array<uint8>, portId: uint16)
    requires MESH_PKT_LEN <= d.Length
    modifies d
    ensures d[14..34] == Ipv4.Encode(Ipv4.WithChecksum(MeshIpBeforeChecksum(portId)))
    ensures forall i :: 0 <= i < d.Length && !(14 <= i < 34) ==> d[i] == old(d[i])
  {
    d[14] := 0x45;
    d[15] := 0;
    Store(d, 16, Be16(Ipv4.IPV4_HDR_LEN + MeshHeader.MESH_HDR_LEN));
    Store(d, 18, Be16(0));
    Store(d, 20, Be16(0));
    d[22] := 64;
    d[23] := NEUXTP_IP_PROTO;
    Store(d, 24, Be16(0));
    Store(d, 26, Be32(Ipv4.Address(10, 0, portId, 1)));
    Store(d, 30, Be32(MeshDstAddr(portId)));
    Ipv4.FieldsEncode(d, 14, MeshIpBeforeChecksum(portId));
    Ipv4.FillChecksum(d, 14, MeshIpBeforeChecksum(portId));
  }

  /** The NeuXTP statements of build_neuxtp_pkt on the header at offset 34. */
  method WriteMeshNeuxtp(d: array<uint8>, aiTag: uint8, priority: uint8, tsc: uint64, tscPrecise: uint64)
    requires MESH_PKT_LEN <= d.Length
    modifies d
    ensures d[34..50] == MeshHeader.Encode(MeshNeuxtp(aiTag, priority, tsc, tscPrecise))
    ensures forall i :: 0 <= i < d.Length && !(34 <= i < 50) ==> d[i] == old(d[i])
  {
    d[34] := aiTag;
    d[35] := priority;
    Store(d, 36, Le16(0));
    Store(d, 38, Le32(tsc % 0x1_0000_0000));
    Store(d, 42, Le64(tscPrecise));
    assert d[34..50] == MeshHeader.Encode(MeshNeuxtp(aiTag, priority, tsc, tscPrecise));
  }

  /** The three header blocks of build_neuxtp_pkt, in the order it writes them, on the data
      of the buffer; bytes past the frame are left alone. */
  method WriteMeshPacket(d: array<uint8>, aiTag: uint8, priority: uint8, portId: uint16, tsc: uint64, tscPrecise: uint64)
    requires MESH_PKT_LEN <= d.Length
    modifies d
    ensures d[..MESH_PKT_LEN] == MeshFrame(aiTag, priority, portId, tsc, tscPrecise)
    ensures forall i :: MESH_PKT_LEN <= i < d.Length ==> d[i] == old(d[i])
  {
    Ethernet.WriteBuilderHeader(d);
    ghost var eth := d[..14];
    WriteMeshIpv4(d, portId);
    assert d[..14] == eth;
    ghost var ip := d[14..34];
    WriteMeshNeuxtp(d, aiTag, priority, tsc, tscPrecise);
    assert d[..14] == eth && d[14..34] == ip;
    assert d[..50] == eth + ip + d[34..50];
  }

  /** build_neuxtp_pkt. The pool is the file's global mbuf_pool; tsc and tscPrecise
      are what rte_rdtsc() and rte_rdtsc_precise() return. On allocation failure it
      returns null and touches nothing but the (unchanged) pool. */
  method BuildNeuxtpPkt(pool: Pool, aiTag: uint8, priority: uint8, portId: uint16, tsc: uint64, tscPrecise: uint64)
    returns (m: Mbuf?)
    requires pool.Valid()
    modifies pool
    ensures pool.Valid()
    ensures m == null <==> old(pool.avail) == 0
    ensures m == null ==> pool.avail == old(pool.avail) && pool.Out == old(pool.Out)
    ensures m != null ==>
              && fresh(m) && pool.Out == old(pool.Out) + {m} && pool.avail == old(pool.avail) - 1
              && m.dataLen as int == m.pktLen as int == MESH_PKT_LEN
              && m.data.Length >= MESH_PKT_LEN
              && m.data[..MESH_PKT_LEN] == MeshFrame(aiTag, priority, portId, tsc, tscPrecise)
  {
    m := pool.Alloc();
    if m == null {
      return;
    }
    m.dataLen := (Ethernet.RTE_ETHER_HDR_LEN + Ipv4.IPV4_HDR_LEN + MeshHeader.MESH_HDR_LEN) as uint16;
    m.pktLen := m.dataLen as uint32;
    WriteMeshPacket(m.data, aiTag, priority, portId, tsc, tscPrecise);
  }

  // ---------------------------------------------------------------------------
  // What a built packet holds

  /** Ethernet: destination six 0xFF bytes, source six 0xAA bytes, ethertype 08 00. */
  lemma MeshFrameEthernet(aiTag: uint8, priority: uint8, portId: uint16, tsc: uint64, tscPrecise: uint64)
    ensures var f := MeshFrame(aiTag, priority, portId, tsc, tscPrecise);
      && (forall i :: 0 <= i < 6 ==> f[i] == 0xff)
      && (forall i :: 6 <= i < 12 ==> f[i] == 0xaa)
      && f[12] == 0x08 && f[13] == 0x00
  {
  }

  /** IPv4 at 14: version_ihl 0x45, TOS 0, total_length 36 big-endian, id and
      fragment offset 0, TTL 64, protocol 253, source 10.0.(port & 0xff).1 and
      destination 10.(port >> 8).((port & 0xff) ^ 1).1, and in the checksum field the
      checksum of the header as it stood with that field still zero. */
  lemma MeshFrameIpv4(aiTag: uint8, priority: uint8, portId: uint16, tsc: uint64, tscPrecise: uint64)
    ensures var ip := MeshFrame(aiTag, priority, portId, tsc, tscPrecise)[14..34];
      && ip[0] == 0x45 && ip[1] == 0
      && ip[2..4] == [0, 36]
      && ip[4..6] == [0, 0] && ip[6..8] == [0, 0]
      && ip[8] == 64 && ip[9] == 253
      && ip[12..16] == [10, 0, portId % 0x100, 1]
      && ip[16..20] == [10, portId / 0x100, FlipLowBit(portId) % 0x100, 1]
      && ip[10..12] == Be16(Ipv4.Checksum(Ipv4.Encode(MeshIpBeforeChecksum(portId))))
  {
    var ip := MeshFrame(aiTag, priority, portId, tsc, tscPrecise)[14..34];
    assert ip == Ipv4.Encode(Ipv4.WithChecksum(MeshIpBeforeChecksum(portId)));
    Ipv4.EncodeFields(Ipv4.WithChecksum(MeshIpBeforeChecksum(portId)));
    Ipv4.AddressOctets(10, 0, portId, 1);
    MeshDstAddrOctets(portId);
  }

  /** The generated IPv4 header passes the receiver's checksum test. */
  lemma MeshFrameChecksumValid(aiTag: uint8, priority: uint8, portId: uint16, tsc: uint64, tscPrecise: uint64)
    ensures Ipv4.Fold(Ipv4.WordSum(MeshFrame(aiTag, priority, portId, tsc, tscPrecise)[14..34])) == 0xFFFF
  {
    var ip := MeshFrame(aiTag, priority, portId, tsc, tscPrecise)[14..34];
    assert ip == Ipv4.Encode(Ipv4.WithChecksum(MeshIpBeforeChecksum(portId)));
    Ipv4.WithChecksumVerifies(MeshIpBeforeChecksum(portId));
  }

  /** NeuXTP at 34: ai_tag and priority as given, flags 0, session_id the low 32
      bits of the TSC read, timestamp the precise TSC read. */
  lemma MeshFrameNeuxtp(aiTag: uint8, priority: uint8, portId: uint16, tsc: uint64, tscPrecise: uint64)
    ensures var f := MeshFrame(aiTag, priority, portId, tsc, tscPrecise);
      MeshHeader.Decode(f[34..50]) == MeshHeader.MeshHdr(aiTag, priority, 0, tsc % 0x1_0000_0000, tscPrecise)
      && f[34] == aiTag && f[35] == priority && f[36..38] == [0, 0]
  {
    var f := MeshFrame(aiTag, priority, portId, tsc, tscPrecise);
    assert f[34..50] == MeshHeader.Encode(MeshNeuxtp(aiTag, priority, tsc, tscPrecise));
    MeshHeader.DecodeEncode(MeshNeuxtp(aiTag, priority, tsc, tscPrecise));
  }

  /** The third octets of source and destination differ in bit 0, so a generated
      packet never has its source as its destination, neither with the address
      as stored nor with the one intended. */
  lemma MeshAddressesDiffer(portId: uint16)
    ensures (portId % 0x100) % 2 != (FlipLowBit(portId) % 0x100) % 2
    ensures Ipv4.Address(10, 0, portId, 1) != MeshDstAddr(portId)
    ensures Ipv4.Address(10, 0, portId, 1) != IntendedDstAddr(portId)
  {
    FlipLowBitBytes(portId);
    var src, stored, meant := Ipv4.Address(10, 0, portId, 1), MeshDstAddr(portId), IntendedDstAddr(portId);
    Ipv4.AddressOctets(10, 0, portId, 1);
    MeshDstAddrOctets(portId);
    Ipv4.AddressOctets(10, 0, FlipLowBit(portId), 1);
    assert Be32(src)[2] != Be32(stored)[2];
    assert Be32(src)[2] != Be32(meant)[2];
  }

  // ---------------------------------------------------------------------------
  // lcore_mesh_tx: one cycle of the generator loop

  /** ai_tag: `uint8_t core_id = rte_lcore_id()` keeps the low 8 bits of the id. */
  function GeneratorTag(lcoreId: nat): uint8
  {
    lcoreId % 0x100
  }

  /** priority: `7 - core_id` computed in int and converted to uint8_t, i.e. mod 256. */
  function GeneratorPriority(lcoreId: nat): uint8
  {
    (7 - GeneratorTag(lcoreId)) % 0x100
  }

  /** Tag and priority always add up to 7 modulo 256; past core 7 the priority
      wraps around to 263 - tag. */
  lemma GeneratorFields(lcoreId: nat)
    ensures (GeneratorTag(lcoreId) + GeneratorPriority(lcoreId)) % 0x100 == 7
    ensures GeneratorTag(lcoreId) <= 7 ==> GeneratorPriority(lcoreId) == 7 - GeneratorTag(lcoreId)
    ensures GeneratorTag(lcoreId) > 7 ==> GeneratorPriority(lcoreId) == 263 - GeneratorTag(lcoreId)
  {
  }

  /** Measured against the canonical header's code points: the generator's tag is a
      defined AI_TAG_* value only on cores 0..5 (mod 256) and its priority is a
      defined NEUXTP_PRIORITY_* value only on cores 4..7 (mod 256). */
  lemma GeneratorVersusCanonical(lcoreId: nat)
    ensures NeuxtpHdr.ValidTag(GeneratorTag(lcoreId)) <==> GeneratorTag(lcoreId) <= 5
    ensures NeuxtpHdr.ValidPriority(GeneratorPriority(lcoreId)) <==> 4 <= GeneratorTag(lcoreId) <= 7
  {
    NeuxtpHdr.TagCodes(GeneratorTag(lcoreId), NeuxtpHdr.TagNone, NeuxtpHdr.TagNone);
    NeuxtpHdr.PriorityCodes(GeneratorPriority(lcoreId), NeuxtpHdr.Low, NeuxtpHdr.Low);
    GeneratorFields(lcoreId);
  }

  /** The per-worker configuration: struct core_conf. */
  datatype CoreConf = CoreConf(portId: uint16, txQ: uint8)

  /** One pass of the while (1) body of lcore_mesh_tx on lcore lcoreId: build a
      packet and, if the pool gave a buffer, offer it to the worker's tx queue.
      The return value of rte_eth_tx_burst is ignored, so a packet the queue does
      not take is neither sent nor freed. */
  method MeshTxCycle(pool: Pool, txq: TxQueue, lcoreId: nat, conf: CoreConf, tsc: uint64, tscPrecise: uint64)
    returns (pkt: Mbuf?)
    requires pool.Valid() && txq.Valid()
    requires txq.port == conf.portId && txq.queue == conf.txQ
    modifies pool, txq
    ensures pool.Valid() && txq.Valid()
    ensures pkt == null <==> old(pool.avail) == 0
    ensures pkt == null ==>
              pool.avail == old(pool.avail) && pool.Out == old(pool.Out) && txq.ring == old(txq.ring)
    ensures pkt != null ==>
              && fresh(pkt) && pool.Out == old(pool.Out) + {pkt}
              && pkt.dataLen as int == MESH_PKT_LEN && pkt.pktLen as int == MESH_PKT_LEN
              && pkt.data.Length >= MESH_PKT_LEN
              && pkt.data[..MESH_PKT_LEN]
                 == MeshFrame(GeneratorTag(lcoreId), GeneratorPriority(lcoreId), conf.portId, tsc, tscPrecise)
              && txq.ring == (if |old(txq.ring)| < txq.capacity then old(txq.ring) + [pkt] else old(txq.ring))
  {
    var coreId: uint8 := lcoreId % 0x100;
    ghost var frame := MeshFrame(GeneratorTag(lcoreId), GeneratorPriority(lcoreId), conf.portId, tsc, tscPrecise);
    assert frame == MeshFrame(coreId, (7 - coreId) % 0x100, conf.portId, tsc, tscPrecise);
    pkt := BuildNeuxtpPkt(pool, coreId, (7 - coreId) % 0x100, conf.portId, tsc, tscPrecise);
    if pkt != null {
      assert pkt.data[..MESH_PKT_LEN] == frame;
      var sent := txq.TxBurstOne(pkt);
    }
  }

  // ---------------------------------------------------------------------------
  // main: one (port, tx queue) per worker core

  /** What main stores in confs[i] for the i-th worker. */
  function ConfFor(i: nat, nbPorts: uint16): CoreConf
    requires nbPorts > 0
  {
    CoreConf(i % nbPorts, i % 0x100)
  }

  /** rte_eal_remote_launch(lcore_mesh_tx, &confs[confIndex], lcore). */
  datatype Launch = Launch(lcore: nat, confIndex: nat)

  /** With at most 256 workers, worker i sends on port i % nb_ports, which
      exists, and on queue i, which is below num_tx_qs = nb_lcores and is nobody
      else's queue. */
  lemma WorkerAssignment(i: nat, j: nat, nbPorts: uint16, nbWorkers: nat)
    requires nbPorts > 0 && nbWorkers <= 0x100
    requires i < nbWorkers && j < nbWorkers
    ensures ConfFor(i, nbPorts).portId < nbPorts
    ensures ConfFor(i, nbPorts).txQ == i < nbWorkers
    ensures i != j ==> ConfFor(i, nbPorts).txQ != ConfFor(j, nbPorts).txQ
  {
  }

  /** tx_q is a uint8_t: on a build with more than 256 worker lcores, worker 256
      is given queue 0, the queue of worker 0. */
  lemma QueueWrap(nbPorts: uint16)
    requires nbPorts > 0
    ensures ConfFor(256, nbPorts).txQ == ConfFor(0, nbPorts).txQ == 0
  {
  }

  /** The RTE_LCORE_FOREACH_WORKER loop of main: workers are the worker lcore ids
      in the order the macro visits them (rte_lcore_count() - 1 of them, fewer
      than RTE_MAX_LCORE, the build option maxLcore stands for); confs is the
      static array of MAX_TX_QUEUES = RTE_MAX_LCORE entries; main has already
      stopped unless there are at least two ports. */
  method AssignWorkers(workers: seq<nat>, nbPorts: uint16, maxLcore: nat, confs: array<CoreConf>) returns (launches: seq<Launch>)
    requires nbPorts >= 2
    requires confs.Length == maxLcore && |workers| < maxLcore
    modifies confs
    ensures |launches| == |workers|
    ensures forall i :: 0 <= i < |workers| ==> confs[i] == ConfFor(i, nbPorts) && launches[i] == Launch(workers[i], i)
    ensures forall i :: |workers| <= i < confs.Length ==> confs[i] == old(confs[i])
    ensures |workers| <= 0x100 ==>
      forall i, j :: 0 <= i < j < |workers| ==> confs[i].txQ != confs[j].txQ
  {
    var i := 0;
    launches := [];
    while i < |workers|
      invariant 0 <= i <= |workers| && |launches| == i
      invariant forall k :: 0 <= k < i ==> confs[k] == ConfFor(k, nbPorts) && launches[k] == Launch(workers[k], k)
      invariant forall k :: i <= k < confs.Length ==> confs[k] == old(confs[k])
    {
      confs[i] := confs[i].(portId := i % nbPorts);
      confs[i] := confs[i].(txQ := i % 0x100);
      assert confs[i] == ConfFor(i, nbPorts);
      launches := launches + [Launch(workers[i], i)];
      i := i + 1;
    }
    if |workers| <= 0x100 {
      forall i, j | 0 <= i < j < |workers|
        ensures confs[i].txQ != confs[j].txQ
      {
        WorkerAssignment(i, j, nbPorts, |workers|);
      }
    }
  }
}

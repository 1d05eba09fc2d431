# NeuXTP packet core in Dafny

NeuXTP is an experimental protocol carried inside IPv4 under protocol number
253 (0xFD, the experimental value of RFC 3692). Its repository is mostly DPDK
plumbing. Under that plumbing sits a small core that can be stated byte by byte,
and this project models it:

- **Two packet builders.** `build_neuxtp_pkt` (the mesh traffic generator) and
  `build_neuxtp_packet` (the test program) each take a buffer from a mempool.
  They write an Ethernet header, an IPv4 header (section 3.1 of RFC 791) and a
  NeuXTP header into it in place, then set `data_len`/`pkt_len`.
- **The generator's rules.** These are the `IPv4(a,b,c,d)` address macro, the
  per-core choice of `ai_tag` and `priority`, one cycle of the send loop, and the
  worker-to-(port, queue) assignment in `main`.
- **The forward/drop gate of `lcore_main`.** For one received burst of at most
  32 buffers, each buffer is transmitted on port 0, queue 0 when
  `atoi(reply) > 70`, and freed otherwise. The reply is read back with `fgets`
  into a 10-byte buffer.
- **The canonical 12-byte `neuxtp_hdr`** of `neuxtp_hdr.h`, with its version,
  `AI_TAG_*` and `NEUXTP_PRIORITY_*` constants.

The three C files declare three different `struct neuxtp_hdr` layouts. They are
kept apart, one module each:

| module | layout | size |
|---|---|---|
| `MeshHeader` | neuxtp_mesh_sim.c | 16 bytes |
| `TestHeader` | neuxtp_test.c | 8 bytes |
| `NeuxtpHdr` | neuxtp_hdr.h | 12 bytes |

Modules:

- `Bytes`: `uint8` … `uint64` and their big- and little-endian byte strings.
- `Ethernet`, `Ipv4`: the two standard headers. `Ipv4` also holds the address
  macro and the RFC 1071 header checksum.
- `Mbufs`: the DPDK objects, as classes: `Mbuf` (a data array plus the two
  length fields), `Pool`, `RxQueue` and `TxQueue`. It also holds `memset` and
  typed stores into a buffer.
- `MeshHeader`/`MeshSim`: neuxtp_mesh_sim.c.
- `TestHeader`/`NeuxtpTest`: neuxtp_test.c.
- `NeuxtpDpdk`: neuxtp_dpdk.c.
- `NeuxtpHdr`: neuxtp_hdr.h.

How the model is shaped:

- **Builders.** Each builder is a method that fills the `Mbuf`'s byte array.
  Its postcondition equates the first bytes with a frame function
  (`MeshFrame`, `TestFrame`). Lemmas then read each field back out of that
  frame.
- **Burst.** The burst is a method over the `RxQueue`, `TxQueue` and `Pool`
  objects. It is specified by `HandleAll`, a step-by-step function of the old
  state. Lemmas give `HandleAll`'s closed form: what was transmitted and what
  was freed.

Byte order choices:

- The mesh generator stores `flags`, `session_id` and `timestamp` without a
  swap, so they are modelled little-endian (the x86 host order).
- The test program converts `session_id` with `rte_cpu_to_be_32`, so that field
  is big-endian.
- `neuxtp_hdr.h` fixes no byte order. `NeuxtpHdr.Encode` puts every multi-byte
  field in network (big-endian) order, the only order the code ever converts
  to.

What the environment supplies becomes a parameter:

- the TSC reads and the `rand()` value;
- the predictor's output file, one reply string per buffer of the burst;
- the worker lcore ids `RTE_LCORE_FOREACH_WORKER` visits.

## Model

| member | source | states |
|---|---|---|
| `MeshSim.BuildNeuxtpPkt` | neuxtp_mesh_sim.c:35-72 | Fails (null, pool unchanged) exactly when the pool is empty. Otherwise it returns a fresh buffer taken from the pool, with `data_len == pkt_len == 50` and data bytes 0..49 equal to `MeshFrame` of the inputs. |
| `MeshSim.WriteMeshPacket` | neuxtp_mesh_sim.c:46-69 | The three header blocks written in order make bytes 0..49 the frame and leave every later byte alone. |
| `MeshSim.WriteMeshIpv4` | neuxtp_mesh_sim.c:51-62 | The field stores, followed by `rte_ipv4_cksum` over the header as it stands, give the encoding of the header with checksum zero and then its checksum filled in. Bytes outside 14..33 are unchanged. |
| `MeshSim.WriteMeshNeuxtp` | neuxtp_mesh_sim.c:64-69 | Bytes 34..49 become the 16-byte header of `ai_tag`, `priority`, flags 0, the TSC truncated to 32 bits and the precise TSC. Nothing else changes. |
| `MeshSim.MeshFrame` | neuxtp_mesh_sim.c:43-44 | A frame is 14 + 20 + 16 = 50 bytes long. |
| `MeshSim.MeshIpBeforeChecksum` | neuxtp_mesh_sim.c:59 | The header handed to `rte_ipv4_cksum` has a zero checksum field. |
| `MeshSim.MeshFrameEthernet` | neuxtp_mesh_sim.c:47-49 | Destination is six 0xFF bytes, source six 0xAA bytes, ethertype bytes 0x08 0x00. |
| `MeshSim.MeshFrameIpv4` | neuxtp_mesh_sim.c:52-62 | version_ihl 0x45, TOS 0, total_length 36 big-endian, id and fragment offset 0, TTL 64, protocol 253. Source reads 10.0.(port & 0xff).1. Destination reads 10.(port >> 8).((port & 0xff) ^ 1).1, which is what the unparenthesised macro call stores (see Findings). The checksum bytes hold the checksum of the header with that field zero. |
| `MeshSim.MeshFrameChecksumValid` | neuxtp_mesh_sim.c:59-62 | The written IPv4 header passes the RFC 1071 receiver check (word sum folds to 0xFFFF). |
| `MeshSim.MeshFrameNeuxtp` | neuxtp_mesh_sim.c:65-69 | Decoding bytes 34..49 with the 16-byte layout gives back ai_tag, priority, flags 0, the low 32 bits of the TSC read and the precise TSC read. |
| `MeshSim.MeshAddressesDiffer` | neuxtp_mesh_sim.c:60-61 | The third octets of source and destination differ in bit 0. So the source address never equals the stored destination, nor the intended one. |
| `MeshSim.MeshDstAddrOctets` | neuxtp_mesh_sim.c:61 | The stored destination, `IPv4(10, 0, port_id ^ 1, 1)` as the macro of line 18 expands it, reads 10.(port >> 8).((port & 0xff) ^ 1).1 on the wire for every 16-bit port. |
| `MeshSim.MeshDstAddrAsIntended` | neuxtp_mesh_sim.c:61 | The stored destination equals the intended 10.0.((port ^ 1) & 0xff).1 exactly when port_id < 256. |
| `MeshSim.MeshDstAddrPort256` | neuxtp_mesh_sim.c:61 | For port_id 256 the stored destination reads 10.1.1.1, while the intended one reads 10.0.1.1. |
| `MeshSim.FlipLowBitBytes` | neuxtp_mesh_sim.c:61 | `port_id ^ 1` keeps the high byte of the port and changes the parity of its low byte. |
| `MeshSim.GeneratorFields` | neuxtp_mesh_sim.c:76-81 | With `core_id` the lcore id mod 256: `ai_tag + priority == 7 (mod 256)`. `priority == 7 - core_id` up to core 7, and it wraps to `263 - core_id` after. |
| `MeshSim.GeneratorVersusCanonical` | neuxtp_mesh_sim.c:81 | The generated tag is a defined `AI_TAG_*` value only for core_id 0..5. The generated priority is a defined `NEUXTP_PRIORITY_*` value only for core_id 4..7. |
| `MeshSim.MeshTxCycle` | neuxtp_mesh_sim.c:80-85 | One generator cycle builds with `(core_id, 7 - core_id)` and the worker's port: a fresh buffer with both lengths 50 holding that frame. It offers the packet to the worker's tx queue only when the build returned a buffer; otherwise pool and queue are untouched. A packet the full queue refuses stays outstanding. |
| `MeshSim.WorkerAssignment` | neuxtp_mesh_sim.c:103-104 | With at most 256 workers, worker i gets a port below nb_ports and tx queue i, which is below the worker count (num_tx_qs). Two different workers never share a queue. |
| `MeshSim.AssignWorkers` | neuxtp_mesh_sim.c:118-125 | For any `RTE_MAX_LCORE`, the loop fills `confs[i]` with `(i % nb_ports, i mod 256)` for every worker i, launches worker i with `&confs[i]`, and leaves the rest of `confs` unchanged. With at most 256 workers, no two of them share a tx queue. |
| `MeshSim.QueueWrap` | neuxtp_mesh_sim.c:122 | `tx_q` is a `uint8_t`: worker 256 is given queue 0, the queue of worker 0. |
| `MeshHeader.DecodeEncode` | neuxtp_mesh_sim.c:20-26 | Decoding the 16-byte mesh header gives back the encoded fields. |
| `MeshHeader.EncodeDecode` | neuxtp_mesh_sim.c:20-26 | Every 16-byte string is the encoding of its decoding. |
| `MeshHeader.Encode` | neuxtp_mesh_sim.c:20-26 | The packed mesh header is 1 + 1 + 2 + 4 + 8 = 16 bytes. |
| `NeuxtpTest.BuildNeuxtpPacket` | neuxtp_test.c:31-67 | Fails (null, pool unchanged) exactly when the pool is empty. Otherwise it returns a fresh pooled buffer with `data_len == pkt_len == 42` and bytes 0..41 equal to `TestFrame`. |
| `NeuxtpTest.WriteTestPacket` | neuxtp_test.c:41-64 | The three header blocks in order make bytes 0..41 the frame and leave later bytes alone. |
| `NeuxtpTest.WriteTestIpv4` | neuxtp_test.c:48-56 | The memset of the whole header to 0, five field stores and the checksum give the header with every unwritten field zero and its checksum filled in. Bytes outside 14..33 are unchanged. |
| `NeuxtpTest.WriteTestNeuxtp` | neuxtp_test.c:59-64 | Bytes 34..41 become version 1, flags 0, ai_tag, priority and the big-endian `rand()` value. Nothing else changes. |
| `NeuxtpTest.TestFrame` | neuxtp_test.c:32 | A test frame is 14 + 20 + 8 = 42 bytes long. |
| `NeuxtpTest.TestIpBeforeChecksum` | neuxtp_test.c:56 | The header handed to `rte_ipv4_cksum` has a zero checksum field. |
| `NeuxtpTest.TestFrameIpv4` | neuxtp_test.c:49-56 | version_ihl 0x45; TOS, id and fragment offset 0 (left by the memset); total_length 28 big-endian; TTL 64; protocol 0xFD; addresses 10.0.0.1 and 10.0.0.2. The checksum bytes hold the checksum of the header with that field zero. |
| `NeuxtpTest.TestFrameChecksumValid` | neuxtp_test.c:56 | The written IPv4 header passes the RFC 1071 receiver check. |
| `NeuxtpTest.TestAddresses` | neuxtp_test.c:54-55 | The two constants are `IPv4(10,0,0,1)` and `IPv4(10,0,0,2)`, and big-endian they read 10.0.0.1 and 10.0.0.2. |
| `NeuxtpTest.TestFrameNeuxtp` | neuxtp_test.c:59-64 | Bytes 34..41 are version 1, flags 0, ai_tag, priority, then the big-endian `rand()` value. They decode back to those fields. |
| `NeuxtpTest.SimulateNeuxtpTests` | neuxtp_test.c:70-81 | Makes exactly 5 attempts with `(ai_tag, priority) = (i, 5 - i)` in order. Packet i, when built, holds `TestFrame(i, 5 - i, rand_i)`, with the rand values consumed in order. Every built packet is freed in its iteration, so the pool's outstanding set and free count end as they began, and either all attempts succeed or none does. |
| `TestHeader.DecodeEncode` | neuxtp_test.c:17-23 | Decoding the 8-byte test header gives back the encoded fields. |
| `TestHeader.EncodeDecode` | neuxtp_test.c:17-23 | Every 8-byte string is the encoding of its decoding. |
| `TestHeader.Encode` | neuxtp_test.c:17-23 | The packed test header is 1 + 1 + 1 + 1 + 4 = 8 bytes. |
| `Ipv4.AddressOctets` | neuxtp_mesh_sim.c:18 | `IPv4(a,b,c,d)` stored big-endian is the four bytes `a&0xff, b&0xff, c&0xff, d&0xff`, in that order. |
| `Ipv4.AddressInjective` | neuxtp_test.c:28 | Two macro addresses are equal exactly when their four octets (mod 256) are equal. |
| `Ipv4.DecodeEncode` | neuxtp_mesh_sim.c:52-62 | The 20-byte RFC 791 header encoding decodes back to its fields. |
| `Ipv4.EncodeDecode` | neuxtp_mesh_sim.c:52-62 | Every 20-byte string is the encoding of its decoding. |
| `Ipv4.FillChecksum` | neuxtp_test.c:56 | `hdr_checksum = rte_ipv4_cksum(ip)` on a header whose checksum field is zero leaves the encoding of the filled header. Bytes outside the header are unchanged. |
| `Ipv4.ChecksumOverZeroedField` | neuxtp_mesh_sim.c:59-62 | Filling the checksum changes only bytes 10-11, and they hold the checksum of the header with those bytes zero. |
| `Ipv4.ChecksumVerifies` | neuxtp_mesh_sim.c:62 | Storing the RFC 1071 checksum in the zero word makes the ones'-complement sum of all words 0xFFFF. |
| `Ipv4.WithChecksumVerifies` | neuxtp_test.c:56 | A header checksummed the way both builders do it passes the receiver check. |
| `Ethernet.WriteBuilderHeader` | neuxtp_test.c:42-45 | The two memsets and the big-endian ethertype store make bytes 0..13 the encoding of (ff×6, aa×6, 0x0800). Later bytes are unchanged. |
| `Ethernet.DecodeEncode` | neuxtp_mesh_sim.c:47-49 | The 14-byte Ethernet encoding decodes back to its fields. |
| `Ethernet.EncodeDecode` | neuxtp_mesh_sim.c:47-49 | Every 14-byte string is the encoding of its decoding. |
| `Mbufs.Pool.Alloc` | neuxtp_mesh_sim.c:36-37 | `rte_pktmbuf_alloc` returns null exactly when the pool has no free buffer, and then changes nothing. Otherwise it hands out one fresh buffer with both lengths 0. |
| `Mbufs.Pool.Free` | neuxtp_test.c:76 | `rte_pktmbuf_free` returns an outstanding buffer to the pool. |
| `Mbufs.TxQueue.TxBurstOne` | neuxtp_dpdk.c:81 | A one-buffer `rte_eth_tx_burst` takes the buffer (returns 1) exactly when the ring has room. Otherwise it returns 0 and the ring is unchanged. |
| `Mbufs.RxQueue.RxBurst` | neuxtp_dpdk.c:60 | `rte_eth_rx_burst` moves the oldest `min(n, pending)` buffers into `bufs[0..nb)` and touches no other slot. |
| `NeuxtpDpdk.LcoreMainBurst` | neuxtp_dpdk.c:54-88 | One burst receives `nb_rx <= 32` buffers into `bufs[0..nb_rx)` only, and passes them through the gate in order. The new (tx ring, pool) state is `HandleAll` of the old state over the received buffers and their scores. With `nb_rx == 0`, transmit ring and pool are unchanged. |
| `NeuxtpDpdk.GateBurst` | neuxtp_dpdk.c:64-85 | The inner loop handles `bufs[0..nb)` one by one, in index order. It ends in the state `HandleAll` gives. |
| `NeuxtpDpdk.ForwardOrFree` | neuxtp_dpdk.c:75-84 | A buffer whose reply scores above 70 is offered to port 0, queue 0; any other buffer is freed. The new state is exactly `Handle` of the old one. |
| `NeuxtpDpdk.BurstOutcome` | neuxtp_dpdk.c:80-84 | For a burst of distinct outstanding buffers, the ring gains exactly the forwarded buffers (score > 70) in burst order, as many as it has room for. The pool gets back exactly the others. Forwarded and freed together are the burst, each buffer in one group. Buffer i is forwarded iff its score exceeds 70, and freed iff it does not. An empty burst changes nothing. |
| `NeuxtpDpdk.HandleAllClosed` | neuxtp_dpdk.c:64-85 | Handling a burst buffer by buffer equals the closed form: ring + forwarded buffers (as many as fit), outstanding set minus dropped buffers, free count plus their number. |
| `NeuxtpDpdk.SelectedPartition` | neuxtp_dpdk.c:80-84 | The forwarded and the freed subsequences together are a permutation of the burst. |
| `NeuxtpDpdk.SelectedMembership` | neuxtp_dpdk.c:80-84 | In a burst of distinct buffers, a buffer is forwarded iff its score exceeds 70, and freed iff it does not. |
| `NeuxtpDpdk.GateBoundary` | neuxtp_dpdk.c:80 | A reply of "70" scores 70 and is freed. A reply of "71" scores 71 and is forwarded. |
| `NeuxtpDpdk.ScoreOfPrinted` | neuxtp_dpdk.c:75-80 | A reply holding a number below 10^9 followed by a newline scores exactly that number. |
| `NeuxtpDpdk.ScoreBound` | neuxtp_dpdk.c:75-80 | At most 9 characters reach `atoi`, so every score lies strictly between -10^9 and 10^9 and cannot overflow `int`. |
| `NeuxtpDpdk.NoDigitsScoresZero` | neuxtp_dpdk.c:80 | A string with no digit after its white space and optional sign parses to 0, and that buffer is not forwarded. |
| `NeuxtpDpdk.AtoiSkipsSpace` | neuxtp_dpdk.c:80 | Leading white space does not change `atoi`'s result. |
| `NeuxtpDpdk.AtoiOfDigits` | neuxtp_dpdk.c:80 | A digit string not followed by a digit parses to its decimal value. |
| `NeuxtpDpdk.AtoiSigned` | neuxtp_dpdk.c:80 | A '-' before such a digit string negates its value, and a '+' keeps it. |
| `NeuxtpDpdk.Fgets` | neuxtp_dpdk.c:75-77 | `fgets(result, 10, rf)` reads a prefix of the file of at most 9 characters. The prefix stops after the first newline, at the size bound or at end of file. |
| `NeuxtpDpdk.FgetsLine` | neuxtp_dpdk.c:77 | A first line that fits the buffer is read up to and including its newline and no further. |
| `NeuxtpDpdk.GateOfPrinted` | neuxtp_dpdk.c:75-80 | For a burst whose predictor printed the numbers n_i (each below 10^9, each followed by a newline), buffer i is forwarded exactly when n_i > 70. |
| `NeuxtpHdr.Encode` | neuxtp_hdr.h:22-32 | The packed canonical header is 1 + 1 + 2 + 2 + 1 + 1 + 4 = 12 bytes. |
| `NeuxtpHdr.Decode` | neuxtp_hdr.h:22-32 | Decoding succeeds exactly when at least 12 bytes are given. |
| `NeuxtpHdr.FieldOffsets` | neuxtp_hdr.h:23-31 | version at 0, flags at 1, length at 2-3, session_id at 4-5, ai_tag at 6, priority at 7, checksum at 8-11 (multi-byte fields big-endian). |
| `NeuxtpHdr.DecodeEncode` | neuxtp_hdr.h:22-32 | `Decode(Encode(h)) == h` for every header with each field within its width. |
| `NeuxtpHdr.EncodeDecode` | neuxtp_hdr.h:22-32 | `Encode(Decode(b)) == b` for every 12-byte `b`. |
| `NeuxtpHdr.DecodeIgnoresPayload` | neuxtp_hdr.h:22-32 | Bytes after the 12-byte header do not affect decoding. |
| `NeuxtpHdr.TagCodes` | neuxtp_hdr.h:9-14 | The tag validator accepts exactly 0..5. Each tag maps to a distinct code and back. |
| `NeuxtpHdr.TagOfCode` | neuxtp_hdr.h:9-14 | A code decoded to a tag is that tag's code. |
| `NeuxtpHdr.PriorityCodes` | neuxtp_hdr.h:17-20 | The priority validator accepts exactly 0..3. Codes are distinct and round-trip. Low < Medium < High < Critical ("0 = low, 3 = critical"). |
| `NeuxtpHdr.PriorityOfCode` | neuxtp_hdr.h:17-20 | A code decoded to a priority is that priority's code. |

## Findings

| source | as written | input that shows it | evidently intended | confidence | as-written member | corrected member |
|---|---|---|---|---|---|---|
| neuxtp_mesh_sim.c:61 | `IPv4(10, 0, port_id ^ 1, 1)`: the macro does not parenthesise `c`, so `(c & 0xff)` becomes `port_id ^ (1 & 0xff)` and the port is shifted unmasked; its high byte lands in the second octet | port_id = 256 gives destination 10.1.1.1 | 10.0.((port_id ^ 1) & 0xff).1, the masking every other macro call gets | not executed | `MeshSim.MeshDstAddr`, `MeshSim.MeshDstAddrPort256` | `MeshSim.IntendedDstAddr`, `MeshSim.MeshDstAddrAsIntended`, `MeshSim.MeshAddressesDiffer` |

The packet builders keep the address as written, because the model describes
the frames the program sends. The two agree for every port below 256
(`MeshSim.MeshDstAddrAsIntended`), and in both the destination differs from the
source (`MeshSim.MeshAddressesDiffer`).

## Left out

- Driver and process setup is not modelled: `rte_eal_init`, mempool creation,
  `port_init`, device configure, queue setup and start, `rte_exit`, and every
  `printf` except the per-attempt lines of `simulate_neuxtp_tests`, which its
  log records. The model starts from working queues and a pool.
- The model covers one iteration of each endless `while (1)` loop: one
  generator cycle, one received burst. The 10 µs `rte_delay_us_block` is timing.
- `rte_eal_remote_launch`, `rte_eal_mp_wait_lcore` and running the workers
  concurrently are left out. `AssignWorkers` records each launch as
  (lcore, index into `confs`).
- The predictor (`system("python3 ./ai_predictor.py …")`) and the temp-file
  writes and reads are a foreign process. Each buffer's output-file contents
  are an input string.
- An empty output file makes `fgets` return NULL and leave `result`
  uninitialised. The model reads such a file as the empty string, which scores
  0 and frees the buffer. `lcore_main` does not check for this case.
- `rte_rdtsc`, `rte_rdtsc_precise` and `rand()` are inputs. The truncation of
  the 64-bit TSC into the 32-bit `session_id` is modelled (`tsc % 2^32`).
- `rte_ipv4_cksum` is modelled as the RFC 1071 ones'-complement checksum of the
  20 header bytes. The DPDK implementation is not part of this model.
- `Mbufs.TxQueue.TxBurstOne` models the device queue as a ring with a fixed
  number of free descriptors and nothing else.
- The return value of `rte_eth_tx_burst` is ignored in `lcore_mesh_tx` and
  `lcore_main`. A refused buffer therefore stays outstanding: it is neither
  sent nor freed, and no no-leak property is claimed on those paths.
- `MeshSim.AssignWorkers` takes `RTE_MAX_LCORE`, a DPDK build option, as the
  parameter `maxLcore`. It requires fewer than `maxLcore` workers, which
  `rte_lcore_count() - 1` always satisfies, and `confs[]` has `maxLcore`
  entries.
- `MeshSim.WorkerAssignment`: distinct tx queues are promised only for at most
  256 workers. `tx_q` is a `uint8_t`, so on a build with more than 256 worker
  lcores worker 256 shares queue 0 with worker 0 (`MeshSim.QueueWrap`). The
  usual x86 build has `RTE_MAX_LCORE` 128, where this cannot happen.
- Host byte order is taken to be little-endian. `MeshHeader` fixes it for the
  unswapped stores of the mesh generator. The model does not cover big-endian
  hosts.
- The 12-byte `neuxtp_hdr` is never written or read by any of the C files.
  Its `Decode` therefore checks only the input length. No version, `length` or
  `checksum` validation exists in the code, so none is modelled.

/** The DPDK objects the core works on: packet buffers (struct rte_mbuf), the pool
    they are allocated from, and the receive and transmit queues of a port. Only
    what the core calls is modelled: allocation that can fail, free, a burst
    receive and a one-packet transmit, and byte stores into a buffer's data. */
module Mbufs {
  import opened Bytes

  /** Bytes available at rte_pktmbuf_mtod in a freshly allocated buffer
      (RTE_MBUF_DEFAULT_DATAROOM; the headroom lies before it). */
  const DATA_ROOM: nat := 2048

  /** A packet buffer: its data room and the two length fields the builders set. */
  class Mbuf {
    const data: array<uint8>
    var dataLen: uint16
    var pktLen: uint32

    constructor ()
      ensures fresh(data) && data.Length == DATA_ROOM
      ensures dataLen == 0 && pktLen == 0
    {
      data := new uint8[DATA_ROOM];
      dataLen, pktLen := 0, 0;
    }
  }

  /** A mempool of `size` buffers. `Out` holds the buffers handed out and not yet
      returned; allocation fails exactly when none is left. */
  class Pool {
    const size: nat
    var avail: nat
    ghost var Out: set<Mbuf>

    ghost predicate Valid()
      reads this
    {
      avail + |Out| == size
    }

    constructor (n: nat)
      ensures Valid() && size == n && avail == n && Out == {}
    {
      size, avail, Out := n, n, {};
    }

    /** rte_pktmbuf_alloc: NULL when the pool is exhausted, otherwise a buffer
        with both lengths reset and unspecified data bytes. */
    method Alloc() returns (m: Mbuf?)
      requires Valid()
      modifies this
      ensures Valid()
      ensures m == null <==> old(avail) == 0
      ensures m == null ==> avail == old(avail) && Out == old(Out)
      ensures m != null ==>
                && fresh(m) && fresh(m.data) && m.data.Length == DATA_ROOM
                && m.dataLen == 0 && m.pktLen == 0
                && avail == old(avail) - 1 && Out == old(Out) + {m}
    {
      if avail == 0 {
        m := null;
      } else {
        m := new Mbuf();
        avail := avail - 1;
        Out := Out + {m};
      }
    }

    /** rte_pktmbuf_free: the buffer goes back to the pool. */
    method Free(m: Mbuf)
      requires Valid() && m in Out
      modifies this
      ensures Valid()
      ensures avail == old(avail) + 1 && Out == old(Out) - {m}
    {
      Out := Out - {m};
      avail := avail + 1;
    }
  }

  /** No buffer occurs twice and every one is held by the program, not the pool. */
  ghost predicate Owned(bufs: seq<Mbuf>, pool: Pool)
    reads pool
  {
    && (forall i :: 0 <= i < |bufs| ==> bufs[i] in pool.Out)
    && (forall i, j :: 0 <= i < j < |bufs| ==> bufs[i] != bufs[j])
  }

  /** A transmit queue of a port: the buffers it has accepted, up to the number of
      descriptors it has. */
  class TxQueue {
    const port: uint16
    const queue: uint16
    const capacity: nat
    var ring: seq<Mbuf>

    ghost predicate Valid()
      reads this
    {
      |ring| <= capacity
    }

    constructor (port: uint16, queue: uint16, capacity: nat)
      ensures Valid() && ring == []
      ensures this.port == port && this.queue == queue && this.capacity == capacity
    {
      this.port, this.queue, this.capacity := port, queue, capacity;
      ring := [];
    }

    /** rte_eth_tx_burst(port, queue, &m, 1): the number of buffers taken, 1 when a
        descriptor is free and 0 otherwise; a buffer not taken stays with the caller. */
    method TxBurstOne(m: Mbuf) returns (sent: nat)
      requires Valid()
      modifies this
      ensures Valid()
      ensures sent == (if |old(ring)| < capacity then 1 else 0)
      ensures ring == (if sent == 1 then old(ring) + [m] else old(ring))
    {
      if |ring| < capacity {
        ring := ring + [m];
        sent := 1;
      } else {
        sent := 0;
      }
    }
  }

  /** A receive queue of a port: the buffers the device has filled and not yet
      handed over, oldest first. */
  class RxQueue {
    const port: uint16
    const queue: uint16
    var pending: seq<Mbuf>

    constructor (port: uint16, queue: uint16, pending: seq<Mbuf>)
      ensures this.port == port && this.queue == queue && this.pending == pending
    {
      this.port, this.queue, this.pending := port, queue, pending;
    }

    /** rte_eth_rx_burst(port, queue, bufs, n): moves the oldest min(n, pending)
        buffers into bufs[0..nb) and leaves the rest of the array alone. */
    method RxBurst(bufs: array<Mbuf?>, n: nat) returns (nb: nat)
      requires n <= bufs.Length
      modifies this, bufs
      ensures nb == if |old(pending)| < n then |old(pending)| else n
      ensures forall i :: 0 <= i < nb ==> bufs[i] == old(pending)[i]
      ensures forall i :: nb <= i < bufs.Length ==> bufs[i] == old(bufs[i])
      ensures pending == old(pending)[nb..]
    {
      nb := if |pending| < n then |pending| else n;
      var i := 0;
      while i < nb
        invariant 0 <= i <= nb && pending == old(pending)
        invariant forall k :: 0 <= k < i ==> bufs[k] == pending[k]
        invariant forall k :: i <= k < bufs.Length ==> bufs[k] == old(bufs[k])
      {
        bufs[i] := pending[i];
        i := i + 1;
      }
      pending := pending[nb..];
    }
  }

  /** memset(a + off, v, n). */
  method Memset(a: array<uint8>, off: nat, v: uint8, n: nat)
    requires off + n <= a.Length
    modifies a
    ensures forall i :: off <= i < off + n ==> a[i] == v
    ensures forall i :: 0 <= i < a.Length && !(off <= i < off + n) ==> a[i] == old(a[i])
  {
    var j := 0;
    while j < n
      invariant 0 <= j <= n
      invariant forall i :: 0 <= i < a.Length ==> a[i] == (if off <= i < off + j then v else old(a[i]))
    {
      a[off + j] := v;
      j := j + 1;
    }
  }

  /** A store through a typed pointer into the buffer: the field's bytes, in the
      order they land in memory, written at offset off. */
  method Store(a: array<uint8>, off: nat, bs: seq<uint8>)
    requires off + |bs| <= a.Length
    modifies a
    ensures forall i :: off <= i < off + |bs| ==> a[i] == bs[i - off]
    ensures forall i :: 0 <= i < a.Length && !(off <= i < off + |bs|) ==> a[i] == old(a[i])
  {
    var j := 0;
    while j < |bs|
      invariant 0 <= j <= |bs|
      invariant forall i :: 0 <= i < a.Length ==> a[i] == (if off <= i < off + j then bs[i - off] else old(a[i]))
    {
      a[off + j] := bs[j];
      j := j + 1;
    }
  }
}

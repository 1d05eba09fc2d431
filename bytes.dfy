/** Fixed-width unsigned integers of C's <stdint.h> and their byte encodings.
    Big-endian ("network order") is what rte_cpu_to_be_16/32 produce; little-endian
    is the in-memory order of an unswapped store on the x86 hosts DPDK runs on. */
module Bytes {

  type uint8 = x: int | 0 <= x < 0x100
  type uint16 = x: int | 0 <= x < 0x1_0000
  type uint32 = x: int | 0 <= x < 0x1_0000_0000
  type uint64 = x: int | 0 <= x < 0x1_0000_0000_0000_0000

  /** The bytes of a 16-bit value, most significant first. */
  function Be16(x: uint16): (b: seq<uint8>)
    ensures |b| == 2
  {
    [x / 0x100, x % 0x100]
  }

  function FromBe16(b: seq<uint8>): uint16
    requires |b| == 2
  {
    b[0] as int * 0x100 + b[1]
  }

  /** The bytes of a 16-bit value, least significant first. */
  function Le16(x: uint16): (b: seq<uint8>)
    ensures |b| == 2
  {
    [x % 0x100, x / 0x100]
  }

  function FromLe16(b: seq<uint8>): uint16
    requires |b| == 2
  {
    b[0] + b[1] as int * 0x100
  }

  /** The bytes of a 32-bit value, most significant first. */
  function Be32(x: uint32): (b: seq<uint8>)
    ensures |b| == 4
  {
    Be16(x / 0x1_0000) + Be16(x % 0x1_0000)
  }

  function FromBe32(b: seq<uint8>): uint32
    requires |b| == 4
  {
    FromBe16(b[..2]) * 0x1_0000 + FromBe16(b[2..])
  }

  /** The bytes of a 32-bit value, least significant first. */
  function Le32(x: uint32): (b: seq<uint8>)
    ensures |b| == 4
  {
    Le16(x % 0x1_0000) + Le16(x / 0x1_0000)
  }

  function FromLe32(b: seq<uint8>): uint32
    requires |b| == 4
  {
    FromLe16(b[..2]) + FromLe16(b[2..]) * 0x1_0000
  }

  /** The bytes of a 64-bit value, least significant first. */
  function Le64(x: uint64): (b: seq<uint8>)
    ensures |b| == 8
  {
    Le32(x % 0x1_0000_0000) + Le32(x / 0x1_0000_0000)
  }

  function FromLe64(b: seq<uint8>): uint64
    requires |b| == 8
  {
    FromLe32(b[..4]) + FromLe32(b[4..]) * 0x1_0000_0000
  }

  lemma Be16RoundTrip(x: uint16, b: seq<uint8>)
    requires |b| == 2
    ensures FromBe16(Be16(x)) == x
    ensures Be16(FromBe16(b)) == b
  {
  }

  lemma Be32RoundTrip(x: uint32, b: seq<uint8>)
    requires |b| == 4
    ensures FromBe32(Be32(x)) == x
    ensures Be32(FromBe32(b)) == b
  {
    Be16RoundTrip(x / 0x1_0000, b[..2]);
    Be16RoundTrip(x % 0x1_0000, b[2..]);
    assert Be32(x)[..2] == Be16(x / 0x1_0000);
    assert Be32(x)[2..] == Be16(x % 0x1_0000);
    assert b == b[..2] + b[2..];
  }

  lemma Le16RoundTrip(x: uint16, b: seq<uint8>)
    requires |b| == 2
    ensures FromLe16(Le16(x)) == x
    ensures Le16(FromLe16(b)) == b
  {
  }

  lemma Le32RoundTrip(x: uint32, b: seq<uint8>)
    requires |b| == 4
    ensures FromLe32(Le32(x)) == x
    ensures Le32(FromLe32(b)) == b
  {
    var lo, hi := x % 0x1_0000, x / 0x1_0000;
    assert FromLe32(Le32(x)) == x by {
      Le16RoundTrip(lo, b[..2]);
      Le16RoundTrip(hi, b[2..]);
      assert Le32(x)[..2] == Le16(lo);
      assert Le32(x)[2..] == Le16(hi);
    }
    assert Le32(FromLe32(b)) == b by {
      var l, h := FromLe16(b[..2]), FromLe16(b[2..]);
      var y := FromLe32(b);
      assert y == l + h as int * 0x1_0000;
      assert y % 0x1_0000 == l && y / 0x1_0000 == h;
      Le16RoundTrip(l, b[..2]);
      Le16RoundTrip(h, b[2..]);
      assert b == b[..2] + b[2..];
    }
  }

  lemma Le64RoundTrip(x: uint64, b: seq<uint8>)
    requires |b| == 8
    ensures FromLe64(Le64(x)) == x
    ensures Le64(FromLe64(b)) == b
  {
    var lo, hi := x % 0x1_0000_0000, x / 0x1_0000_0000;
    assert FromLe64(Le64(x)) == x by {
      Le32RoundTrip(lo, b[..4]);
      Le32RoundTrip(hi, b[4..]);
      assert Le64(x)[..4] == Le32(lo);
      assert Le64(x)[4..] == Le32(hi);
    }
    assert Le64(FromLe64(b)) == b by {
      var l, h := FromLe32(b[..4]), FromLe32(b[4..]);
      var y := FromLe64(b);
      assert y == l + h as int * 0x1_0000_0000;
      assert y % 0x1_0000_0000 == l && y / 0x1_0000_0000 == h;
      Le32RoundTrip(l, b[..4]);
      Le32RoundTrip(h, b[4..]);
      assert b == b[..4] + b[4..];
    }
  }
}

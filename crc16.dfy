/** CRC-16/ARC, the block check the frame code obtains from the `crc`
    package as `crc16(bytes, previous)`: reflected polynomial 0x8005
    (0xA001 in reflected form), starting from the carried previous value
    (0 when none is given), no final XOR. */
module Crc16 {
  import opened ByteTypes

  /** One shift of the reflected register. */
  function Shift(c: bv16): bv16 {
    if c & 1 == 1 then (c >> 1) ^ 0xA001 else c >> 1
  }

  /** Folds one byte into a running CRC value. */
  function UpdateByte(crc: bv16, b: byte): bv16 {
    var c := crc ^ (b as bv16);
    Shift(Shift(Shift(Shift(Shift(Shift(Shift(Shift(c))))))))
  }

  /** `crc16(data, init)`: the bytes folded in order into `init`. */
  function Crc(data: seq<byte>, init: bv16): bv16
    decreases |data|
  {
    if data == [] then init else Crc(data[1..], UpdateByte(init, data[0]))
  }

  /** The low byte of a CRC value, sent first on the wire. */
  function Lo(c: bv16): byte {
    ((c as int) % 256) as byte
  }

  /** The high byte of a CRC value, sent second. */
  function Hi(c: bv16): byte {
    ((c as int) / 256) as byte
  }

  /** The two block-check bytes appended after a terminator, low byte first. */
  function BccBytes(c: bv16): (r: seq<byte>)
    ensures |r| == 2
  {
    [Lo(c), Hi(c)]
  }

  /** The two block-check bytes are the value's base-256 digits. */
  lemma BccBytesValue(c: bv16)
    ensures BccBytes(c)[0] as int + 256 * BccBytes(c)[1] as int == c as int
  {
  }

  /** Carrying the value across calls is the same as one call over the
      concatenation: `crc16(b, crc16(a, init)) == crc16(a + b, init)`. */
  lemma {:induction false} CrcAppend(a: seq<byte>, b: seq<byte>, init: bv16)
    ensures Crc(a + b, init) == Crc(b, Crc(a, init))
    decreases |a|
  {
    if a == [] {
      assert a + b == b;
    } else {
      assert (a + b)[1..] == a[1..] + b;
      CrcAppend(a[1..], b, UpdateByte(init, a[0]));
    }
  }

  /** Folding one more byte at the end is one UpdateByte step. */
  lemma CrcSnoc(a: seq<byte>, x: byte, init: bv16)
    ensures Crc(a + [x], init) == UpdateByte(Crc(a, init), x)
  {
    CrcAppend(a, [x], init);
  }

  /** The check vector: "ABC" then ETX gives 0x19C5, sent as C5 19. */
  lemma CheckVector(w: seq<byte>)
    requires w == [0x41, 0x42, 0x43, 0x03]
    ensures Crc(w, 0) == 0x19C5
    ensures BccBytes(0x19C5) == [0xC5, 0x19]
  {
    assert UpdateByte(0, 0x41) == 0x30C0;
    assert UpdateByte(0x30C0, 0x42) == 0x61B0;
    assert UpdateByte(0x61B0, 0x43) == 0x4521;
    assert UpdateByte(0x4521, 0x03) == 0x19C5;
    CrcSteps(w, 0, 0x30C0, 0x61B0, 0x4521, 0x19C5);
  }

  /** A CRC over four bytes, one UpdateByte step at a time. */
  lemma CrcSteps(w: seq<byte>, c0: bv16, c1: bv16, c2: bv16, c3: bv16, c4: bv16)
    requires |w| == 4
    requires UpdateByte(c0, w[0]) == c1 && UpdateByte(c1, w[1]) == c2
    requires UpdateByte(c2, w[2]) == c3 && UpdateByte(c3, w[3]) == c4
    ensures Crc(w, c0) == c4
  {
    assert Crc(w[3..], c3) == Crc(w[4..], c4);
    assert Crc(w[2..], c2) == Crc(w[3..], c3) by { assert w[2..][1..] == w[3..]; }
    assert Crc(w[1..], c1) == Crc(w[2..], c2) by { assert w[1..][1..] == w[2..]; }
  }
}

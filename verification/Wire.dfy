/** Numbers in network byte order. */
module Wire {
  import opened ByteOrder
  import opened Words

  function U16(b: Bytes, off: nat): (r: nat)
    requires off + 2 <= |b|
    ensures r < 65536
  {
    var high: nat := b[off];
    high * 256 + b[off + 1]
  }

  function U32(b: Bytes, off: nat): nat
    requires off + 4 <= |b|
  {
    U16(b, off) * 65536 + U16(b, off + 2)
  }

  function BE16(x: nat): (b: Bytes)
    requires x < 65536
    ensures |b| == 2 && b[0] as int * 256 + b[1] == x
  {
    [x / 256, x % 256]
  }

  function BE32(x: Word): (b: Bytes)
    ensures |b| == 4 && b[0] as int * 0x100_0000 + b[1] as int * 0x1_0000 + b[2] as int * 0x100 + b[3] == x
  {
    [x / 0x100_0000, x / 0x1_0000 % 256, x / 0x100 % 256, x % 256]
  }
}

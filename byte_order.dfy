/**
 * Byte swapping of src/byte-order.c.  On a little-endian host these turn a
 * value copied out of a frame in network (big-endian) order into host order;
 * the host query `is_little_endian` becomes the `Endianness` value callers pass.
 */
module ByteOrder {

  /** The byte order of the host the decoder runs on. */
  datatype Endianness = LittleEndian | BigEndian

  /** Byte `k` of a 16-bit word, byte 0 being the least significant. */
  function Byte16(x: bv16, k: nat): bv8
    requires k < 2
  {
    if k == 0 then (x & 0xFF) as bv8 else ((x >> 8) & 0xFF) as bv8
  }

  /** Byte `k` of a 32-bit word, byte 0 being the least significant. */
  function Byte32(x: bv32, k: nat): bv8
    requires k < 4
  {
    if k == 0 then (x & 0xFF) as bv8
    else if k == 1 then ((x >> 8) & 0xFF) as bv8
    else if k == 2 then ((x >> 16) & 0xFF) as bv8
    else ((x >> 24) & 0xFF) as bv8
  }

  /** custom_ntohs: exchanges the two bytes of a 16-bit word. */
  function Ntohs(data: bv16): (r: bv16)
    ensures Byte16(r, 0) == Byte16(data, 1) && Byte16(r, 1) == Byte16(data, 0)
  {
    ((data << 8) & 0xFF00) | ((data >> 8) & 0x00FF)
  }

  /** custom_ntohl: reverses the four bytes of a 32-bit word. */
  function Ntohl(data: bv32): (r: bv32)
    ensures forall k :: 0 <= k < 4 ==> Byte32(r, k) == Byte32(data, 3 - k)
  {
    ((data << 24) & 0xFF000000) |
    ((data << 8) & 0x00FF0000) |
    ((data >> 8) & 0x0000FF00) |
    ((data >> 24) & 0x000000FF)
  }

  /** Swapping twice gives the word back. */
  lemma NtohsInvolution(x: bv16)
    ensures Ntohs(Ntohs(x)) == x
  {
  }

  /** Reversing twice gives the word back. */
  lemma NtohlInvolution(x: bv32)
    ensures Ntohl(Ntohl(x)) == x
  {
  }

  /** The 16-bit value that memcpy leaves when it copies bytes `b0`, `b1` (in memory order) on `host`. */
  function Load16(b0: bv8, b1: bv8, host: Endianness): (r: bv16)
    ensures host == LittleEndian ==> r & 0xFF == b0 as bv16 && r >> 8 == b1 as bv16
    ensures host == BigEndian ==> r >> 8 == b0 as bv16 && r & 0xFF == b1 as bv16
  {
    if host == LittleEndian then (b1 as bv16 << 8) | b0 as bv16
    else (b0 as bv16 << 8) | b1 as bv16
  }

  /** The big-endian value of two bytes: `b0` is the high byte. */
  function BigEndian16(b0: bv8, b1: bv8): bv16
  {
    (b0 as bv16 << 8) | b1 as bv16
  }

  /**
   * The idiom of src/packets.c: memcpy two bytes, then apply custom_ntohs when
   * the host is little-endian.  On either host the result is the big-endian
   * reading of the two bytes.
   */
  function NetworkLoad16(b0: bv8, b1: bv8, host: Endianness): (r: bv16)
    ensures r == BigEndian16(b0, b1)
  {
    var loaded := Load16(b0, b1, host);
    if host == LittleEndian then Ntohs(loaded) else loaded
  }

  /** The two bytes of a 16-bit value in network order, high byte first. */
  function NetworkBytes16(x: bv16): (pair: seq<bv8>)
    ensures |pair| == 2 && BigEndian16(pair[0], pair[1]) == x
  {
    [(x >> 8) as bv8, (x & 0xFF) as bv8]
  }

  /** Reading two bytes big-endian and writing the value back gives the bytes. */
  lemma BigEndian16RoundTrip(b0: bv8, b1: bv8)
    ensures NetworkBytes16(BigEndian16(b0, b1)) == [b0, b1]
  {
  }
}

/**
 * The bucket function of src/hash.c: both addresses are packed big-endian
 * into 32-bit words (ip_to_uint32), mixed by four xor/subtract/rotate rounds
 * (jhash), and the mixed destination word is reduced modulo the table size
 * (ip_pair_hash).
 */
module HashFunction {
  import opened LinkedList

  /** ROTATE_1 .. ROTATE_4 of src/hash.h. */
  const Rotate1: bv32 := 4
  const Rotate2: bv32 := 23
  const Rotate3: bv32 := 15
  const Rotate4: bv32 := 7

  /**
   * roll32: `(x << n) | (x >> (32 - n))`, which for each amount jhash uses
   * is a left rotation of the word.
   */
  function Roll32(x: bv32, n: bv32): (r: bv32)
    requires 0 < n < 32
    ensures n == Rotate1 ==> r == x.RotateLeft(4)
    ensures n == Rotate2 ==> r == x.RotateLeft(23)
    ensures n == Rotate3 ==> r == x.RotateLeft(15)
    ensures n == Rotate4 ==> r == x.RotateLeft(7)
  {
    (x << n) | (x >> (32 - n))
  }

  /** One jhash round on `x`: `x ^= y; x -= roll32(y, k)`. */
  function Round(x: bv32, y: bv32, k: bv32): bv32
    requires 0 < k < 32
  {
    (x ^ y) - Roll32(y, k)
  }

  /** The round undone: add the rotation back, then xor `y` out again. */
  function Unround(r: bv32, y: bv32, k: bv32): bv32
    requires 0 < k < 32
  {
    (r + Roll32(y, k)) ^ y
  }

  /** Knowing `y`, a round can be undone. */
  lemma RoundUndo(x: bv32, y: bv32, k: bv32)
    requires 0 < k < 32
    ensures Unround(Round(x, y, k), y, k) == x
  {
    // the round's own expression as the argument lets the subtraction cancel
    assert Unround((x ^ y) - Roll32(y, k), y, k) == x;
  }

  /**
   * jhash: the pair (a, b) after the four mixing rounds, which the C code
   * rewrites in place through its two pointers.  Rounds alternate between
   * the two words, each using the other word's latest value.
   */
  function JHash(a: bv32, b: bv32): (bv32, bv32)
  {
    var a1 := Round(a, b, Rotate1);
    var b1 := Round(b, a1, Rotate2);
    var a2 := Round(a1, b1, Rotate3);
    var b2 := Round(b1, a2, Rotate4);
    (a2, b2)
  }

  /** The four rounds undone in reverse order. */
  function UnJHash(mixed: (bv32, bv32)): (bv32, bv32)
  {
    var (a2, b2) := mixed;
    var b1 := Unround(b2, a2, Rotate4);
    var a1 := Unround(a2, b1, Rotate3);
    var b := Unround(b1, a1, Rotate2);
    var a := Unround(a1, b, Rotate1);
    (a, b)
  }

  /** The mix loses nothing: the original pair can be recovered from it. */
  lemma JHashInverse(a: bv32, b: bv32)
    ensures UnJHash(JHash(a, b)) == (a, b)
  {
    var a1 := Round(a, b, Rotate1);
    var b1 := Round(b, a1, Rotate2);
    var a2 := Round(a1, b1, Rotate3);
    RoundUndo(b1, a2, Rotate4);
    RoundUndo(a1, b1, Rotate3);
    RoundUndo(b, a1, Rotate2);
    RoundUndo(a, b, Rotate1);
  }

  /** Distinct pairs of words mix to distinct pairs. */
  lemma JHashInjective(a: bv32, b: bv32, c: bv32, d: bv32)
    ensures JHash(a, b) == JHash(c, d) <==> a == c && b == d
  {
    JHashInverse(a, b);
    JHashInverse(c, d);
  }

  /** ip_to_uint32: the four address bytes as a big-endian 32-bit word. */
  function IpToUint32(ip: Ip): (r: bv32)
    ensures Uint32ToIp(r) == ip
  {
    (ip[0] as bv32 << 24) | (ip[1] as bv32 << 16) | (ip[2] as bv32 << 8) | ip[3] as bv32
  }

  /** The address bytes of a word, most significant first. */
  function Uint32ToIp(x: bv32): Ip
  {
    [(x >> 24) as bv8, ((x >> 16) & 0xFF) as bv8, ((x >> 8) & 0xFF) as bv8, (x & 0xFF) as bv8]
  }

  /** Packing is onto: every word is the packing of its own bytes. */
  lemma Uint32ToIpRoundTrip(x: bv32)
    ensures IpToUint32(Uint32ToIp(x)) == x
  {
  }

  /**
   * ip_pair_hash: the bucket of `key` in a table of `tableSize` buckets.  It
   * depends on nothing but the key's bytes and the size.
   */
  function IpPairHash(key: IpPair, tableSize: nat): (h: nat)
    requires tableSize > 0
    ensures h < tableSize
  {
    var mixed := JHash(IpToUint32(key.sourceIp), IpToUint32(key.destinationIp));
    mixed.1 as int % tableSize
  }
}

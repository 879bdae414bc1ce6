/**
 * The header decoder of src/packets.c.  A frame arrives as a string of hex
 * digits, two per byte; the Ethernet II, IPv4 (section 3.1 of RFC 791) and UDP
 * (RFC 768) headers are converted to bytes and their fields extracted.  Every
 * 16-bit field is a memcpy of two frame bytes followed by custom_ntohs on a
 * little-endian host, which on either host is the big-endian reading of the
 * two bytes.
 */
module Packets {
  import opened ByteOrder
  import opened LinkedList

  /** ETHERNET_HEADER_SIZE, IPV4_HEADER_SIZE, UDP_HEADER_SIZE (bytes). */
  const EthernetHeaderSize: nat := 14
  const Ipv4HeaderSize: nat := 20
  const UdpHeaderSize: nat := 8

  /** IPV4_PROTOCOL: the EtherType of IPv4. */
  const Ipv4Protocol: bv16 := 0x0800

  /** UDP_PROTOCOL: the IPv4 protocol number of UDP. */
  const UdpProtocol: bv8 := 0x11

  /** MAC_SECTION_SIZE bytes. */
  type Mac = s: seq<bv8> | |s| == 6 witness [0, 0, 0, 0, 0, 0]

  /** ethernet_header_t. */
  datatype EthernetHeader = EthernetHeader(destinationMac: Mac, sourceMac: Mac, ipProtocol: bv16)

  /**
   * ipv4_header_t.  `version` and `headerLen` are 4-bit fields, `flags` a
   * 3-bit and `fragOffset` a 13-bit field; `optionSize` is a size_t.
   */
  datatype Ipv4Header = Ipv4Header(
    version: bv8, headerLen: bv8, tos: bv8, totalLen: bv16, identification: bv16,
    flags: bv16, fragOffset: bv16, ttl: bv8, protocol: bv8, checksum: bv16,
    sourceIp: Ip, destinationIp: Ip, optionSize: bv64)

  /** udp_header_t. */
  datatype UdpHeader = UdpHeader(sourcePort: bv16, destinationPort: bv16, length: bv16, checksum: bv16)

  /** is_ipv4. */
  predicate IsIpv4(h: EthernetHeader)
  {
    h.ipProtocol == Ipv4Protocol
  }

  /** is_udp. */
  predicate IsUdp(h: Ipv4Header)
  {
    h.protocol == UdpProtocol
  }

  // ---------------------------------------------------------------- hex text

  /** A character `%2hhx` reads as a hex digit. */
  predicate IsHexDigit(c: char)
  {
    '0' <= c <= '9' || 'a' <= c <= 'f' || 'A' <= c <= 'F'
  }

  /** The value of a hex digit. */
  function HexDigitValue(c: char): (v: bv8)
    requires IsHexDigit(c)
    ensures v < 16
  {
    if '0' <= c <= '9' then (c as int - '0' as int) as bv8
    else if 'a' <= c <= 'f' then (c as int - 'a' as int + 10) as bv8
    else (c as int - 'A' as int + 10) as bv8
  }

  /** The lower-case hex digit of a value below 16. */
  function HexDigitChar(v: bv8): (c: char)
    requires v < 16
    ensures IsHexDigit(c)
  {
    if v < 10 then ('0' as int + v as int) as char
    else ('a' as int + v as int - 10) as char
  }

  /** Reading the digit written for a value below 16 gives the value back. */
  lemma HexDigitRoundTrip(v: bv8)
    requires v < 16
    ensures HexDigitValue(HexDigitChar(v)) == v
  {
  }

  /** A letter in lower case; any other character unchanged. */
  function Lower(c: char): char
  {
    if 'A' <= c <= 'Z' then (c as int - 'A' as int + 'a' as int) as char else c
  }

  /**
   * Writing the value of a hex digit gives the digit back, in lower case:
   * `%hhx` reads 'A'..'F' as the same values as 'a'..'f'.
   */
  lemma HexDigitDecodeEncode(c: char)
    requires IsHexDigit(c)
    ensures HexDigitChar(HexDigitValue(c)) == Lower(c)
  {
    var x := if '0' <= c <= '9' then c as int - '0' as int
             else if 'a' <= c <= 'f' then c as int - 'a' as int + 10
             else c as int - 'A' as int + 10;
    NibbleAsInt(x);
    assert HexDigitValue(c) as int == x;
  }

  /** A value below 16 survives the trip through a byte. */
  lemma NibbleAsInt(x: int)
    requires 0 <= x < 16
    ensures (x as bv8) as int == x
  {
  }

  /** The byte that `%2hhx` reads from two hex digits: high nibble first. */
  function HexByte(hi: char, lo: char): (b: bv8)
    requires IsHexDigit(hi) && IsHexDigit(lo)
    ensures b >> 4 == HexDigitValue(hi) && b & 0xF == HexDigitValue(lo)
  {
    NibblesSplit(HexDigitValue(hi), HexDigitValue(lo));
    (HexDigitValue(hi) << 4) | HexDigitValue(lo)
  }

  /** Two nibbles packed into a byte come apart again. */
  lemma NibblesSplit(hi: bv8, lo: bv8)
    requires hi < 16 && lo < 16
    ensures ((hi << 4) | lo) >> 4 == hi && ((hi << 4) | lo) & 0xF == lo
  {
  }

  /** The digit pair of a byte read from two hex digits is those digits in lower case. */
  lemma HexByteDecodeEncode(hi: char, lo: char)
    requires IsHexDigit(hi) && IsHexDigit(lo)
    ensures HexPair(HexByte(hi, lo)) == [Lower(hi), Lower(lo)]
  {
    HexDigitDecodeEncode(hi);
    HexDigitDecodeEncode(lo);
  }

  /** The first `2 * n` characters of `hex` exist and are hex digits. */
  predicate HexWellFormed(hex: seq<char>, n: nat)
  {
    2 * n <= |hex| && forall i :: 0 <= i < 2 * n ==> IsHexDigit(hex[i])
  }

  /** The `n` bytes written as the first `2 * n` characters of `hex`. */
  function HexBytes(hex: seq<char>, n: nat): (bytes: seq<bv8>)
    requires HexWellFormed(hex, n)
    ensures |bytes| == n
    ensures forall i :: 0 <= i < n ==> bytes[i] == HexByte(hex[2 * i], hex[2 * i + 1])
  {
    if n == 0 then [] else HexBytes(hex, n - 1) + [HexByte(hex[2 * n - 2], hex[2 * n - 1])]
  }

  /** The two lower-case hex digits of a byte, high digit first. */
  function HexPair(b: bv8): (pair: seq<char>)
    ensures |pair| == 2 && IsHexDigit(pair[0]) && IsHexDigit(pair[1])
  {
    [HexDigitChar(b >> 4), HexDigitChar(b & 0xF)]
  }

  /** `%2hhx` reads the byte back from its digit pair. */
  lemma HexPairRoundTrip(b: bv8)
    ensures HexByte(HexPair(b)[0], HexPair(b)[1]) == b
  {
    HexDigitRoundTrip(b >> 4);
    HexDigitRoundTrip(b & 0xF);
  }

  /** The hex text of a byte string: the digit pairs of its bytes in order. */
  function HexEncode(bytes: seq<bv8>): (hex: seq<char>)
    ensures |hex| == 2 * |bytes|
  {
    if bytes == [] then [] else HexEncode(bytes[..|bytes| - 1]) + HexPair(bytes[|bytes| - 1])
  }

  /** Encoding distributes over concatenation. */
  lemma {:induction false} HexEncodeAppend(first: seq<bv8>, second: seq<bv8>)
    ensures HexEncode(first + second) == HexEncode(first) + HexEncode(second)
    decreases |second|
  {
    if second == [] {
      assert first + second == first;
    } else {
      var n := |second|;
      assert (first + second)[..|first + second| - 1] == first + second[..n - 1];
      HexEncodeAppend(first, second[..n - 1]);
    }
  }

  /** Encoding one more byte of a prefix appends that byte's digit pair. */
  lemma HexEncodeSnoc(bytes: seq<bv8>, j: nat)
    requires j < |bytes|
    ensures HexEncode(bytes[..j + 1]) == HexEncode(bytes[..j]) + HexPair(bytes[j])
  {
    var prefix := bytes[..j + 1];
    assert prefix[..j] == bytes[..j] && prefix[j] == bytes[j];
  }

  /** Characters 2i and 2i + 1 of the encoding are the digit pair of byte i. */
  lemma {:induction false} HexEncodeDigits(bytes: seq<bv8>, i: nat)
    requires i < |bytes|
    ensures HexEncode(bytes)[2 * i] == HexPair(bytes[i])[0]
    ensures HexEncode(bytes)[2 * i + 1] == HexPair(bytes[i])[1]
  {
    var n := |bytes|;
    var prefix := bytes[..n - 1];
    assert HexEncode(bytes) == HexEncode(prefix) + HexPair(bytes[n - 1]);
    if i < n - 1 {
      HexEncodeDigits(prefix, i);
      assert prefix[i] == bytes[i];
    }
  }

  /** Re-encoding decoded hex text gives the text back, in lower case. */
  lemma HexBytesDecodeEncode(hex: seq<char>, n: nat)
    requires HexWellFormed(hex, n)
    ensures |HexEncode(HexBytes(hex, n))| == 2 * n
    ensures forall j :: 0 <= j < 2 * n ==> HexEncode(HexBytes(hex, n))[j] == Lower(hex[j])
  {
    forall j | 0 <= j < 2 * n
      ensures HexEncode(HexBytes(hex, n))[j] == Lower(hex[j])
    {
      HexDigitDecodeEncodeAt(hex, n, j);
    }
  }

  /** Digit j of the re-encoded text is digit j of the text, in lower case. */
  lemma HexDigitDecodeEncodeAt(hex: seq<char>, n: nat, j: nat)
    requires HexWellFormed(hex, n) && j < 2 * n
    ensures HexEncode(HexBytes(hex, n))[j] == Lower(hex[j])
  {
    var bytes := HexBytes(hex, n);
    var i := j / 2;
    HexEncodeDigits(bytes, i);
    HexByteDecodeEncode(hex[2 * i], hex[2 * i + 1]);
    if j % 2 == 0 {
      assert j == 2 * i;
    } else {
      assert j == 2 * i + 1;
    }
  }

  /** Decoding the hex text of a byte string gives the bytes back. */
  lemma HexRoundTrip(bytes: seq<bv8>)
    ensures HexWellFormed(HexEncode(bytes), |bytes|)
    ensures HexBytes(HexEncode(bytes), |bytes|) == bytes
  {
    HexDecodeAt(bytes, 0, |bytes|);
    assert HexEncode(bytes)[2 * 0..] == HexEncode(bytes);
    assert bytes[0..0 + |bytes|] == bytes;
  }

  /** The encoding of a byte string, read from byte `m` on, decodes to the bytes from `m` on. */
  lemma HexDecodeAt(bytes: seq<bv8>, m: nat, n: nat)
    requires m + n <= |bytes|
    ensures 2 * m <= |HexEncode(bytes)|
    ensures HexWellFormed(HexEncode(bytes)[2 * m..], n)
    ensures HexBytes(HexEncode(bytes)[2 * m..], n) == bytes[m..m + n]
  {
    HexSuffixWellFormed(bytes, m, n);
    var hex := HexEncode(bytes)[2 * m..];
    var decoded := HexBytes(hex, n);
    forall i | 0 <= i < n
      ensures decoded[i] == bytes[m..m + n][i]
    {
      HexEncodeDigits(bytes, m + i);
      HexPairRoundTrip(bytes[m + i]);
    }
  }

  lemma HexSuffixWellFormed(bytes: seq<bv8>, m: nat, n: nat)
    requires m + n <= |bytes|
    ensures 2 * m <= |HexEncode(bytes)|
    ensures HexWellFormed(HexEncode(bytes)[2 * m..], n)
  {
    var hex := HexEncode(bytes)[2 * m..];
    forall j | 0 <= j < 2 * n
      ensures IsHexDigit(hex[j])
    {
      HexEncodeDigits(bytes, m + j / 2);
    }
  }

  /**
   * hex_to_byte_array: byte i of `byteArray` becomes the value of the hex
   * digits at positions 2i and 2i + 1, for i below `len`; the rest of the
   * array is untouched.
   */
  method HexToByteArray(hex: seq<char>, byteArray: array<bv8>, len: nat)
    requires HexWellFormed(hex, len) && len <= byteArray.Length
    modifies byteArray
    ensures byteArray[..len] == HexBytes(hex, len)
    ensures byteArray[len..] == old(byteArray[len..])
  {
    var iteration := 0;
    while iteration < len
      invariant 0 <= iteration <= len
      invariant forall i :: 0 <= i < iteration ==> byteArray[i] == HexByte(hex[2 * i], hex[2 * i + 1])
      invariant byteArray[len..] == old(byteArray[len..])
    {
      byteArray[iteration] := HexByte(hex[iteration * 2], hex[iteration * 2 + 1]);
      iteration := iteration + 1;
    }
  }

  // ---------------------------------------------------------------- headers

  /**
   * parse_eth_header: destination MAC from bytes 0-5, source MAC from bytes
   * 6-11, EtherType from bytes 12-13 in network order.
   */
  function ParseEthHeader(bytes: seq<bv8>, host: Endianness): (h: EthernetHeader)
    requires |bytes| == EthernetHeaderSize
    ensures h.destinationMac == bytes[0..6] && h.sourceMac == bytes[6..12]
    ensures h.ipProtocol == BigEndian16(bytes[12], bytes[13])
  {
    EthernetHeader(bytes[0..6], bytes[6..12], NetworkLoad16(bytes[12], bytes[13], host))
  }

  /**
   * parse_ipv4_header: the fields of the 20-byte fixed header, with
   * `optionSize` = 4 * IHL - 20 computed in int and stored in a size_t, so
   * that it wraps below IHL = 5.
   */
  function ParseIpv4Header(bytes: seq<bv8>, host: Endianness): (h: Ipv4Header)
    requires |bytes| == Ipv4HeaderSize
    ensures h.version == bytes[0] >> 4 && h.headerLen == bytes[0] & 0xF
    ensures h.flags < 8 && h.fragOffset < 8192
    ensures h.tos == bytes[1] && h.ttl == bytes[8] && h.protocol == bytes[9]
    ensures h.totalLen == BigEndian16(bytes[2], bytes[3])
    ensures h.identification == BigEndian16(bytes[4], bytes[5])
    ensures h.checksum == BigEndian16(bytes[10], bytes[11])
    ensures h.sourceIp == bytes[12..16] && h.destinationIp == bytes[16..20]
    ensures h.optionSize + 20 == 4 * (h.headerLen as bv64)
  {
    var headerLen := bytes[0] & 0xF;
    Ipv4Header(
      version := (bytes[0] >> 4) & 0xF,
      headerLen := headerLen,
      tos := bytes[1],
      totalLen := NetworkLoad16(bytes[2], bytes[3], host),
      identification := NetworkLoad16(bytes[4], bytes[5], host),
      flags := ((bytes[6] >> 5) & 0x7) as bv16,
      fragOffset := ((((bytes[6] & 0x1F) as bv16) << 8) | bytes[7] as bv16) & 0x1FFF,
      ttl := bytes[8],
      protocol := bytes[9],
      checksum := NetworkLoad16(bytes[10], bytes[11], host),
      sourceIp := bytes[12..16],
      destinationIp := bytes[16..20],
      optionSize := (headerLen as bv64) * 4 - 20)
  }

  /** parse_udp_header: four 16-bit fields in network order. */
  function ParseUdpHeader(bytes: seq<bv8>, host: Endianness): (h: UdpHeader)
    requires |bytes| == UdpHeaderSize
    ensures h.sourcePort == BigEndian16(bytes[0], bytes[1])
    ensures h.destinationPort == BigEndian16(bytes[2], bytes[3])
    ensures h.length == BigEndian16(bytes[4], bytes[5])
    ensures h.checksum == BigEndian16(bytes[6], bytes[7])
  {
    UdpHeader(
      NetworkLoad16(bytes[0], bytes[1], host),
      NetworkLoad16(bytes[2], bytes[3], host),
      NetworkLoad16(bytes[4], bytes[5], host),
      NetworkLoad16(bytes[6], bytes[7], host))
  }

  // ---------------------------------------------------------------- encoders

  /** The header bytes of an Ethernet II header. */
  function EncodeEthHeader(h: EthernetHeader): (bytes: seq<bv8>)
    ensures |bytes| == EthernetHeaderSize
  {
    h.destinationMac + h.sourceMac + NetworkBytes16(h.ipProtocol)
  }

  /** Ethernet decoding reads back every encoded header, on either host. */
  lemma EthHeaderRoundTrip(h: EthernetHeader, host: Endianness)
    ensures ParseEthHeader(EncodeEthHeader(h), host) == h
  {
    var bytes := EncodeEthHeader(h);
    assert bytes[0..6] == h.destinationMac && bytes[6..12] == h.sourceMac;
    assert bytes[12..14] == NetworkBytes16(h.ipProtocol);
  }

  /** Ethernet decoding loses nothing: encoding the decoded header gives the bytes back. */
  lemma EthBytesRoundTrip(bytes: seq<bv8>, host: Endianness)
    requires |bytes| == EthernetHeaderSize
    ensures EncodeEthHeader(ParseEthHeader(bytes, host)) == bytes
  {
    BigEndian16RoundTrip(bytes[12], bytes[13]);
    assert bytes == bytes[0..6] + bytes[6..12] + [bytes[12], bytes[13]];
  }

  /**
   * The headers the decoder can produce: 4-bit version and IHL, 3-bit flags,
   * 13-bit fragment offset, and the option size derived from the IHL.
   */
  predicate Ipv4HeaderInRange(h: Ipv4Header)
  {
    h.version < 16 && h.headerLen < 16 && h.flags < 8 && h.fragOffset < 8192 &&
    h.optionSize == (h.headerLen as bv64) * 4 - 20
  }

  /** Byte 0 of an IPv4 header: version in the high nibble, IHL in the low one. */
  function VersionIhlByte(version: bv8, headerLen: bv8): (b: bv8)
    requires version < 16 && headerLen < 16
    ensures (b >> 4) & 0xF == version && b & 0xF == headerLen
  {
    (version << 4) | headerLen
  }

  /** Bytes 6 and 7 of an IPv4 header: 3 flag bits, then the 13-bit fragment offset. */
  function FlagsFragmentBytes(flags: bv16, fragOffset: bv16): (pair: seq<bv8>)
    requires flags < 8 && fragOffset < 8192
    ensures |pair| == 2
    ensures ((pair[0] >> 5) & 0x7) as bv16 == flags
    ensures ((((pair[0] & 0x1F) as bv16) << 8) | pair[1] as bv16) & 0x1FFF == fragOffset
  {
    var word := (flags << 13) | fragOffset;
    [(word >> 8) as bv8, (word & 0xFF) as bv8]
  }

  /** The 20 bytes of the fixed part of an IPv4 header. */
  function EncodeIpv4Header(h: Ipv4Header): (bytes: seq<bv8>)
    requires Ipv4HeaderInRange(h)
    ensures |bytes| == Ipv4HeaderSize
  {
    [VersionIhlByte(h.version, h.headerLen), h.tos] +
    NetworkBytes16(h.totalLen) + NetworkBytes16(h.identification) +
    FlagsFragmentBytes(h.flags, h.fragOffset) + [h.ttl, h.protocol] +
    NetworkBytes16(h.checksum) + h.sourceIp + h.destinationIp
  }

  /** Every decoded IPv4 header is in range. */
  lemma ParseIpv4HeaderInRange(bytes: seq<bv8>, host: Endianness)
    requires |bytes| == Ipv4HeaderSize
    ensures Ipv4HeaderInRange(ParseIpv4Header(bytes, host))
  {
  }

  /** IPv4 decoding reads back every in-range header, on either host. */
  lemma Ipv4HeaderRoundTrip(h: Ipv4Header, host: Endianness)
    requires Ipv4HeaderInRange(h)
    ensures ParseIpv4Header(EncodeIpv4Header(h), host) == h
  {
    EncodedIpv4Bytes(h);
    ParseFromFields(EncodeIpv4Header(h), h, host);
  }

  /** Bytes holding the fields of an in-range header decode to that header. */
  lemma ParseFromFields(bytes: seq<bv8>, h: Ipv4Header, host: Endianness)
    requires |bytes| == Ipv4HeaderSize && Ipv4HeaderInRange(h)
    requires bytes[0] == VersionIhlByte(h.version, h.headerLen) && bytes[1] == h.tos
    requires BigEndian16(bytes[2], bytes[3]) == h.totalLen
    requires BigEndian16(bytes[4], bytes[5]) == h.identification
    requires [bytes[6], bytes[7]] == FlagsFragmentBytes(h.flags, h.fragOffset)
    requires bytes[8] == h.ttl && bytes[9] == h.protocol
    requires BigEndian16(bytes[10], bytes[11]) == h.checksum
    requires bytes[12..16] == h.sourceIp && bytes[16..20] == h.destinationIp
    ensures ParseIpv4Header(bytes, host) == h
  {
  }

  /** Where each field of an in-range header lands in its 20 bytes. */
  lemma EncodedIpv4Bytes(h: Ipv4Header)
    requires Ipv4HeaderInRange(h)
    ensures var bytes := EncodeIpv4Header(h);
      bytes[0] == VersionIhlByte(h.version, h.headerLen) && bytes[1] == h.tos &&
      [bytes[2], bytes[3]] == NetworkBytes16(h.totalLen) &&
      [bytes[4], bytes[5]] == NetworkBytes16(h.identification) &&
      [bytes[6], bytes[7]] == FlagsFragmentBytes(h.flags, h.fragOffset) &&
      bytes[8] == h.ttl && bytes[9] == h.protocol &&
      [bytes[10], bytes[11]] == NetworkBytes16(h.checksum) &&
      bytes[12..16] == h.sourceIp && bytes[16..20] == h.destinationIp
  {
    Ipv4Layout(VersionIhlByte(h.version, h.headerLen), h.tos, NetworkBytes16(h.totalLen),
      NetworkBytes16(h.identification), FlagsFragmentBytes(h.flags, h.fragOffset), h.ttl, h.protocol,
      NetworkBytes16(h.checksum), h.sourceIp, h.destinationIp);
  }

  /** The byte positions of the fields in the concatenation that makes up a fixed IPv4 header. */
  lemma Ipv4Layout(b0: bv8, b1: bv8, total: seq<bv8>, id: seq<bv8>, frag: seq<bv8>, b8: bv8, b9: bv8,
                   check: seq<bv8>, source: seq<bv8>, destination: seq<bv8>)
    requires |total| == 2 && |id| == 2 && |frag| == 2 && |check| == 2
    requires |source| == 4 && |destination| == 4
    ensures var bytes := [b0, b1] + total + id + frag + [b8, b9] + check + source + destination;
      bytes[0] == b0 && bytes[1] == b1 &&
      [bytes[2], bytes[3]] == total && [bytes[4], bytes[5]] == id && [bytes[6], bytes[7]] == frag &&
      bytes[8] == b8 && bytes[9] == b9 && [bytes[10], bytes[11]] == check &&
      bytes[12..16] == source && bytes[16..20] == destination
  {
    var bytes := [b0, b1] + total + id + frag + [b8, b9] + check + source + destination;
    assert bytes[2..4] == total && bytes[4..6] == id && bytes[6..8] == frag;
    assert bytes[10..12] == check && bytes[12..16] == source && bytes[16..20] == destination;
  }

  /** Fixed-header decoding loses nothing: encoding the decoded header gives the bytes back. */
  lemma Ipv4BytesRoundTrip(bytes: seq<bv8>, host: Endianness)
    requires |bytes| == Ipv4HeaderSize
    ensures EncodeIpv4Header(ParseIpv4Header(bytes, host)) == bytes
  {
    VersionIhlSplit(bytes, host);
    FlagsFragmentSplit(bytes, host);
    BigEndian16RoundTrip(bytes[2], bytes[3]);
    BigEndian16RoundTrip(bytes[4], bytes[5]);
    BigEndian16RoundTrip(bytes[10], bytes[11]);
    Ipv4Fields(bytes);
  }

  /** The fixed IPv4 header cut at its field boundaries. */
  lemma Ipv4Fields(bytes: seq<bv8>)
    requires |bytes| == Ipv4HeaderSize
    ensures bytes == [bytes[0], bytes[1]] + [bytes[2], bytes[3]] + [bytes[4], bytes[5]] +
      [bytes[6], bytes[7]] + [bytes[8], bytes[9]] + [bytes[10], bytes[11]] +
      bytes[12..16] + bytes[16..20]
  {
  }

  /** Byte 0 is rebuilt from the version and IHL decoded from it. */
  lemma VersionIhlSplit(bytes: seq<bv8>, host: Endianness)
    requires |bytes| == Ipv4HeaderSize
    ensures VersionIhlByte(ParseIpv4Header(bytes, host).version, ParseIpv4Header(bytes, host).headerLen) == bytes[0]
  {
    var b0 := bytes[0];
    assert VersionIhlByte(b0 >> 4, b0 & 0xF) == b0;
  }

  /** Bytes 6 and 7 are rebuilt from the flags and fragment offset decoded from them. */
  lemma FlagsFragmentSplit(bytes: seq<bv8>, host: Endianness)
    requires |bytes| == Ipv4HeaderSize
    ensures FlagsFragmentBytes(ParseIpv4Header(bytes, host).flags, ParseIpv4Header(bytes, host).fragOffset) == [bytes[6], bytes[7]]
  {
    var b6, b7 := bytes[6], bytes[7];
    assert FlagsFragmentBytes(((b6 >> 5) & 0x7) as bv16, ((((b6 & 0x1F) as bv16) << 8) | b7 as bv16) & 0x1FFF) == [b6, b7];
  }

  /** The 8 bytes of a UDP header. */
  function EncodeUdpHeader(h: UdpHeader): (bytes: seq<bv8>)
    ensures |bytes| == UdpHeaderSize
  {
    NetworkBytes16(h.sourcePort) + NetworkBytes16(h.destinationPort) +
    NetworkBytes16(h.length) + NetworkBytes16(h.checksum)
  }

  /** UDP decoding reads back every encoded header, on either host. */
  lemma UdpHeaderRoundTrip(h: UdpHeader, host: Endianness)
    ensures ParseUdpHeader(EncodeUdpHeader(h), host) == h
  {
    var bytes := EncodeUdpHeader(h);
    assert bytes[0..2] == NetworkBytes16(h.sourcePort);
    assert bytes[2..4] == NetworkBytes16(h.destinationPort);
    assert bytes[4..6] == NetworkBytes16(h.length);
    assert bytes[6..8] == NetworkBytes16(h.checksum);
  }

  /** UDP decoding loses nothing: encoding the decoded header gives the bytes back. */
  lemma UdpBytesRoundTrip(bytes: seq<bv8>, host: Endianness)
    requires |bytes| == UdpHeaderSize
    ensures EncodeUdpHeader(ParseUdpHeader(bytes, host)) == bytes
  {
    BigEndian16RoundTrip(bytes[0], bytes[1]);
    BigEndian16RoundTrip(bytes[2], bytes[3]);
    BigEndian16RoundTrip(bytes[4], bytes[5]);
    BigEndian16RoundTrip(bytes[6], bytes[7]);
  }

  /** is_ipv4 holds exactly when frame bytes 12 and 13 are 08 00, whatever the host. */
  lemma EtherTypeCheck(eth: seq<bv8>, host: Endianness)
    requires |eth| == EthernetHeaderSize
    ensures IsIpv4(ParseEthHeader(eth, host)) <==> eth[12] == 0x08 && eth[13] == 0x00
  {
    BigEndian16RoundTrip(eth[12], eth[13]);
  }

  /** is_udp holds exactly when byte 9 of the IPv4 header is 0x11, whatever the host. */
  lemma ProtocolCheck(ip: seq<bv8>, host: Endianness)
    requires |ip| == Ipv4HeaderSize
    ensures IsUdp(ParseIpv4Header(ip, host)) <==> ip[9] == 0x11
  {
  }

  // ---------------------------------------------------------------- frame offsets

  /**
   * The byte offset of the UDP header that process_udp_header computes in a
   * uint8_t: ETHERNET_HEADER_SIZE, plus IPV4_HEADER_SIZE and the size_t
   * option size, truncated to 8 bits.
   */
  function UdpOffset(ip: Ipv4Header): bv8
  {
    ((EthernetHeaderSize as bv64 + Ipv4HeaderSize as bv64 + ip.optionSize) & 0xFF) as bv8
  }

  /**
   * For every IHL, including those below 5 whose option size wraps, the UDP
   * header is read right after the Ethernet header and IHL 32-bit words.
   */
  lemma UdpOffsetAfterIpv4Header(ip: Ipv4Header)
    requires Ipv4HeaderInRange(ip)
    ensures UdpOffset(ip) == 14 + 4 * ip.headerLen
  {
    OffsetArithmetic(ip.headerLen, ip.optionSize);
  }

  lemma OffsetArithmetic(headerLen: bv8, optionSize: bv64)
    requires headerLen < 16 && optionSize == (headerLen as bv64) * 4 - 20
    ensures (((EthernetHeaderSize as bv64 + Ipv4HeaderSize as bv64 + optionSize) & 0xFF) as bv8) == 14 + 4 * headerLen
  {
    assert 34 + optionSize == 14 + (headerLen as bv64) * 4;
  }

  /** The position in the frame text (two digits per byte) of the UDP header. */
  function UdpHexStart(ip: Ipv4Header): (n: nat)
    ensures n < 512
  {
    2 * ByteValue(UdpOffset(ip))
  }

  /** A byte as a number. */
  function ByteValue(b: bv8): (n: nat)
    ensures n < 256
  {
    b as int
  }

  /**
   * The UDP header starts IHL 32-bit words after the end of the Ethernet
   * header, whatever the IHL: two hex digits per byte.
   */
  lemma UdpHexStartIhl(ip: Ipv4Header)
    requires Ipv4HeaderInRange(ip)
    ensures UdpHexStart(ip) == 2 * (EthernetHeaderSize + 4 * ByteValue(ip.headerLen))
  {
    UdpOffsetAfterIpv4Header(ip);
    NibbleOffsetValue(ip.headerLen);
  }

  lemma NibbleOffsetValue(h: bv8)
    requires h < 16
    ensures ByteValue(14 + 4 * h) == 14 + 4 * ByteValue(h)
  {
  }

  /** process_ethernet_header: the first 14 bytes of the frame text, decoded. */
  method ProcessEthernetHeader(inputBuffer: seq<char>, host: Endianness) returns (h: EthernetHeader)
    requires HexWellFormed(inputBuffer, EthernetHeaderSize)
    ensures h == ParseEthHeader(HexBytes(inputBuffer, EthernetHeaderSize), host)
  {
    var byteArray := new bv8[EthernetHeaderSize](_ => 0);
    HexToByteArray(inputBuffer, byteArray, EthernetHeaderSize);
    assert byteArray[..] == byteArray[..EthernetHeaderSize];
    h := ParseEthHeader(byteArray[..], host);
  }

  /** process_ipv4_header: the 20 bytes after the Ethernet header, decoded. */
  method ProcessIpv4Header(inputBuffer: seq<char>, host: Endianness) returns (h: Ipv4Header)
    requires 2 * EthernetHeaderSize <= |inputBuffer|
    requires HexWellFormed(inputBuffer[2 * EthernetHeaderSize..], Ipv4HeaderSize)
    ensures h == ParseIpv4Header(HexBytes(inputBuffer[2 * EthernetHeaderSize..], Ipv4HeaderSize), host)
  {
    var byteArray := new bv8[Ipv4HeaderSize](_ => 0);
    HexToByteArray(inputBuffer[2 * EthernetHeaderSize..], byteArray, Ipv4HeaderSize);
    assert byteArray[..] == byteArray[..Ipv4HeaderSize];
    h := ParseIpv4Header(byteArray[..], host);
  }

  /** process_udp_header: the 8 bytes at UdpOffset(ip), decoded. */
  method ProcessUdpHeader(inputBuffer: seq<char>, ip: Ipv4Header, host: Endianness) returns (h: UdpHeader)
    requires UdpHexStart(ip) <= |inputBuffer|
    requires HexWellFormed(inputBuffer[UdpHexStart(ip)..], UdpHeaderSize)
    ensures h == ParseUdpHeader(HexBytes(inputBuffer[UdpHexStart(ip)..], UdpHeaderSize), host)
  {
    var start := UdpHexStart(ip);
    var byteArray := new bv8[UdpHeaderSize](_ => 0);
    HexToByteArray(inputBuffer[start..], byteArray, UdpHeaderSize);
    assert byteArray[..] == byteArray[..UdpHeaderSize];
    h := ParseUdpHeader(byteArray[..], host);
  }
}

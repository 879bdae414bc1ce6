# Packet-Management flow counter, modelled in Dafny

Packet-Management reads a hexdump of captured Ethernet frames. It produces a
per-flow packet count.

It works in two passes:

- `process_line` turns each dump row into the bare hex digits of its bytes.
  It puts a newline before every packet but the first, so the converted file
  holds one frame per line.
- `process_input_file` reads the converted file a line at a time. For each
  line it:
  - strips the newline;
  - decodes the Ethernet header;
  - decodes the IPv4 header when the EtherType is 0x0800;
  - decodes the UDP header when the protocol is 17;
  - counts the (source IP, destination IP) pair.

The count lives in two structures:

- **the hash table**: a prime number of chained buckets. It rehashes to
  `next_prime(2 * size)` once `num_elements >= 0.75 * size`.
- **the record list**: records in first-seen order, each holding an address
  pair and its reference count.

The Dafny modules follow the C files:

| module | file | what it holds |
|---|---|---|
| `ByteOrder` | `byte_order.dfy` | `custom_ntohs`, `custom_ntohl`, and the load of a network-order field on a host of either byte order |
| `Packets` | `packets.dfy` | the header records and `hex_to_byte_array`; the parsers for Ethernet, IPv4 and UDP, with their inverse encoders; `is_ipv4`, `is_udp`; the `process_*_header` functions |
| `HashFunction` | `hash_function.dfy` | `roll32`, `jhash`, `ip_to_uint32`, `ip_pair_hash` |
| `Primes` | `primes.dfy` | `is_prime` and `next_prime`, proved against the definition of a prime |
| `LinkedList` | `linked_list.dfy` | the record list as a class over a sequence of records; the pure specification `Observe` (count one packet of a flow) and its lemmas |
| `Hash` | `hash_table.dfy` | the table as a class over an array of chains; `rehash`, `insert_into_hash_table` |
| `FileHandler` | `file_handler.dfy` | `process_line` and its driving loop; the read loop of `process_input_file` |

A few representation choices:

- A chain entry is the index of its record in the list, not a pointer. The
  table's invariant `Hash.HashTable.Valid` says three things:
  - every record sits in exactly one chain, the one its hash selects;
  - the keys are distinct and every count is positive;
  - `num_elements` equals the number of records.
- Host byte order is a parameter (`Endianness`), not `is_little_endian`. On
  either host, a 16-bit field comes out in network order.
- A file is the sequence of lines that `fgets` returns. The converted output
  is a string.

## Model

| member | source | states |
|---|---|---|
| ByteOrder.Ntohs | src/byte-order.c:3-7 | custom_ntohs swaps the two bytes of a 16-bit value |
| ByteOrder.Ntohl | src/byte-order.c:9-16 | custom_ntohl reverses the four bytes of a 32-bit value: byte k of the result is byte 3-k of the input |
| ByteOrder.NtohsInvolution | src/byte-order.c:3-7 | swapping twice gives back the value |
| ByteOrder.NtohlInvolution | src/byte-order.c:9-16 | reversing twice gives back the value |
| ByteOrder.Load16 | src/packets.c:38 | memcpy of two bytes keeps their memory order: the first byte is the low byte of the field on a little-endian host and the high byte on a big-endian one |
| ByteOrder.NetworkLoad16 | src/packets.c:38-43 | a memcpy of two bytes followed by custom_ntohs on a little-endian host (and nothing on a big-endian one) reads the field big-endian on both hosts |
| ByteOrder.BigEndian16RoundTrip | src/packets.c:53-68 | a big-endian 16-bit field written back in network order gives back its two bytes |
| HashFunction.Roll32 | src/hash.h:15 | roll32 with each of ROTATE_1..ROTATE_4 is a left rotation of the 32-bit word |
| HashFunction.RoundUndo | src/hash.c:17-18 | a round `a ^= b; a -= roll32(b, n)` is undone by adding the rotation back and xoring `b` out, so each round is invertible given the other word |
| HashFunction.JHashInverse | src/hash.c:15-27 | jhash is invertible: undoing its four rounds in reverse order recovers the original pair |
| HashFunction.JHashInjective | src/hash.c:15-27 | jhash maps distinct pairs of words to distinct pairs, so it is a bijection on pairs |
| HashFunction.IpToUint32 | src/hash.c:30-36 | the big-endian packing of the four address bytes loses nothing: the bytes are recovered from the word |
| HashFunction.Uint32ToIpRoundTrip | src/hash.c:30-36 | the packing is onto: every 32-bit word is the packing of its own four bytes |
| HashFunction.IpPairHash | src/hash.c:39-49 | the bucket index of a pair is below the table size |
| Primes.IsPrime | src/hash.c:241-269 | is_prime returns true exactly for primes: at most 1 is not prime, 2 and 3 are, multiples of 2 or 3 are not, and the 6k-1/6k+1 trial division up to the square root settles every other value |
| Primes.NextPrime | src/hash.c:271-284 | next_prime returns the least prime at or above its argument, and 2 for arguments up to 1 |
| Primes.PrimeAtLeast | src/hash.c:278-281 | above every number there is a prime, so the increment loop of next_prime ends |
| Primes.LeastDivisorIsPrime | src/hash.c:260-266 | the least divisor from 2 up of a number is prime, so trial division by candidates only finds prime factors |
| Primes.NoDivisorAboveRoot | src/hash.c:260 | no divisor below i with i*i above the value means no divisor at all |
| Primes.NextCandidatesClear | src/hash.c:260-266 | one round of the loop clears six more candidates: 6k+5 and 6k+7 tested, the others multiples of 2 or 3 |
| Primes.FirstCandidateClear | src/hash.c:255-258 | a value divisible by neither 2 nor 3 has no divisor below 5 |
| LinkedList.Find | src/hash.c:135-149 | the position of the first record holding a key, or the list length when none does |
| LinkedList.ObserveProperties | src/hash.c:135-171 | counting one packet of a flow keeps the keys distinct and the counts positive; raises the total count by exactly one; grows the list only for a new key; leaves every existing key in its place |
| LinkedList.ObserveHit | src/hash.c:139-146 | a key already present only has its own count raised |
| LinkedList.ObserveMiss | src/linked-list.c:11-54 | an absent key is appended at the tail with count INITIAL_VALUE |
| LinkedList.ObserveCount | src/hash.c:135-171 | after one packet of a flow, that flow's count is one higher and every other flow's count is unchanged |
| LinkedList.CountAfterIncrement | src/hash.c:142 | the increment of one record adds one to its own key's count only |
| LinkedList.CountAfterAppend | src/linked-list.c:34-51 | the new tail record adds one to its own key's count only |
| LinkedList.SumCountsIncrement | src/hash.c:142 | raising one count raises the total by one |
| LinkedList.FindUnique | src/hash.c:139-140 | with distinct keys, the record holding a key is the one found |
| LinkedList.ObserveAllConserves | src/file-handler.c:97-137 | counting a stream of packets keeps the list well formed and raises the total by the number of packets |
| LinkedList.ObserveAllCount | src/file-handler.c:97-137 | after a stream of packets, each flow's count is its old count plus its number of occurrences in the stream |
| LinkedList.OccurrencesMultiset | src/file-handler.c:97-137 | the occurrences of a key are its multiplicity in the multiset of the stream |
| LinkedList.ObserveAllOrderIndependent | src/file-handler.c:97-137 | the final counts depend only on the multiset of packets, not on their order |
| LinkedList.ObserveRepeated | src/linked-list.c:35 | n packets of one flow into an empty list give one record with count n |
| LinkedList.ObserveRepeatedFrom | src/hash.c:142 | one more packet of the same flow is one more observation |
| LinkedList.ObserveAllAppend | src/file-handler.c:97-137 | counting a stream and then one packet is counting the longer stream |
| LinkedList.ObserveAllConcat | src/file-handler.c:97-137 | counting two streams one after the other is counting their concatenation |
| LinkedList.FlowList.constructor | src/linked-list.c:7-8 | the list starts empty |
| LinkedList.FlowList.Append | src/linked-list.c:11-54 | insert_into_linked_list puts a record with count INITIAL_VALUE at the tail and hands back the new node |
| LinkedList.FlowList.TotalCount | src/linked-list.c:69-84 | the total print_linked_list accumulates is the sum of the reference counts |
| Hash.OverLoadedIsLoadFactor | src/hash.c:126 | the integer test used by the model is exactly num_elements >= MAX_LOAD_FACTOR * table_size |
| Hash.FlattenEmpty | src/hash.c:61 | a calloc'd table of empty buckets holds no entries |
| Hash.PushPlaced | src/hash.c:90-92 | linking one entry at the head of its new bucket keeps every entry in the bucket its hash selects and adds exactly that entry |
| Hash.PushAllPlaced | src/hash.c:74-95 | relinking a chain keeps every entry in its hashed bucket and adds exactly the chain's entries |
| Hash.PushAllAppend | src/hash.c:74-95 | relinking one more entry at the end of a chain is one more head insertion |
| Hash.PushAllConcat | src/hash.c:70-96 | relinking two chains in sequence is relinking their concatenation |
| Hash.RehashedIndexes | src/hash.c:51-108 | rehash moves every entry, exactly once, into the bucket the new size selects, and loses none |
| Hash.EntryUnique | src/hash.c:132-168 | in a valid table each record's entry is in exactly one bucket, the one its hash selects |
| Hash.AbsentFromChain | src/hash.c:132-149 | a key missing from its own bucket is missing from the whole list, so searching one bucket suffices |
| Hash.IncrementIndexes | src/hash.c:142 | raising a count keeps the table's index of the records |
| Hash.LookupFound | src/hash.c:135-146 | a key found in its bucket has its count raised, and the buckets are untouched |
| Hash.LookupAbsent | src/hash.c:151-171 | an absent key gets a new tail record with count INITIAL_VALUE and its entry at the head of the key's bucket |
| Hash.AppendNewIndexes | src/hash.c:162-168 | the new entry at the head of the bucket keeps the table's index of the records |
| Hash.RelinkChain | src/hash.c:74-95 | the inner rehash loop over one old chain links each entry, in chain order, at the head of its bucket in the new array |
| Hash.Relink | src/hash.c:60-96 | the rehash loops fill a new array of the new size with the relinked chains of all old buckets, in bucket order |
| Hash.SearchChain | src/hash.c:135-149 | the chain walk returns the position of the first entry whose record holds the key, or the chain's length |
| Hash.HashTable.constructor | main.c:12-13 | the table starts with next_prime(TABLE_SIZE) empty buckets, an empty list and a zero counter |
| Hash.HashTable.Rehash | src/hash.c:51-108 | rehash keeps the invariant, moves to next_prime(NEXT_MULTIPLIER * size) buckets with every entry rehashed, and leaves the records and the counter alone |
| Hash.HashTable.Insert | src/hash.c:111-174 | insert_into_hash_table ignores a missing key. Otherwise it rehashes first when over the load factor, then counts the key: the record list becomes Observe of the old list and the buckets are those of the lookup; the invariant holds throughout |
| Hash.HashTable.LookupOrAppend | src/hash.c:131-171 | the bucket search, then either the count increment or the new record and head entry; the record list becomes Observe of the old list |
| Packets.HexDigitValue | src/packets.c:28 | a hex digit read by %hhx has a value below 16 |
| Packets.HexDigitDecodeEncode | src/packets.c:28 | a hex digit of either case, read by %hhx and written back, is that digit in lower case, so 'A'..'F' read as 10..15 like 'a'..'f' |
| Packets.HexByte | src/packets.c:28 | %2hhx puts the first digit's value in the high nibble and the second's in the low nibble |
| Packets.NibblesSplit | src/packets.c:28 | two nibbles packed into a byte come apart again |
| Packets.HexByteDecodeEncode | src/packets.c:28 | the digit pair of a byte read from two hex digits is those two digits in lower case |
| Packets.HexBytesDecodeEncode | src/packets.c:21-32 | re-encoding the bytes decoded from hex text gives the text back in lower case, digit for digit |
| Packets.HexDigitRoundTrip | src/packets.c:28 | a nibble written as a hex digit reads back as itself |
| Packets.HexPairRoundTrip | src/packets.c:28 | %2hhx reads a byte back from its two hex digits |
| Packets.HexBytes | src/packets.c:21-32 | byte i of the decoded text is the value of hex digits 2i and 2i+1 |
| Packets.HexEncodeAppend | src/packets.c:21-32 | the hex text of a concatenation is the concatenation of the hex texts |
| Packets.HexEncodeSnoc | src/packets.c:21-32 | one more byte adds its digit pair at the end of the hex text |
| Packets.HexEncodeDigits | src/packets.c:28 | digits 2i and 2i+1 of the hex text are the digit pair of byte i |
| Packets.HexRoundTrip | src/packets.c:21-32 | decoding the hex text of a byte string gives the byte string back |
| Packets.HexDecodeAt | src/packets.c:21-32 | decoding from digit 2m on gives back the bytes from m on |
| Packets.HexToByteArray | src/packets.c:21-32 | hex_to_byte_array fills the first len cells of the array with the decoded bytes and leaves the rest alone |
| Packets.ParseEthHeader | src/packets.c:34-46 | parse_eth_header takes the two MACs from bytes 0-5 and 6-11 and the EtherType big-endian from bytes 12-13, on either host |
| Packets.EthHeaderRoundTrip | src/packets.c:34-46 | parsing the encoding of an Ethernet header gives it back |
| Packets.EthBytesRoundTrip | src/packets.c:34-46 | encoding the parse of 14 bytes gives the bytes back: the parse loses nothing |
| Packets.ParseIpv4Header | src/packets.c:48-72 | parse_ipv4_header takes the version and IHL from the nibbles of byte 0, and the three-bit flags and 13-bit fragment offset from bytes 6-7. It reads the 16-bit fields big-endian and the addresses from bytes 12-15 and 16-19, and sets option_size + 20 = 4 * IHL in 64-bit wrap-around arithmetic |
| Packets.ParseIpv4HeaderInRange | src/packets.c:50-62 | every parsed header has fields within their bit widths |
| Packets.VersionIhlByte | src/packets.c:50-51 | the packed byte splits back into version and IHL |
| Packets.FlagsFragmentBytes | src/packets.c:55-56 | the packed pair splits back into flags and fragment offset |
| Packets.Ipv4HeaderRoundTrip | src/packets.c:48-72 | parsing the encoding of an in-range IPv4 header gives it back |
| Packets.Ipv4BytesRoundTrip | src/packets.c:48-72 | encoding the parse of 20 bytes gives the bytes back |
| Packets.VersionIhlSplit | src/packets.c:50-51 | the version and IHL nibbles rebuild byte 0 |
| Packets.FlagsFragmentSplit | src/packets.c:55-56 | the flags and fragment offset rebuild bytes 6-7 |
| Packets.ParseUdpHeader | src/packets.c:74-90 | parse_udp_header reads the four 16-bit fields big-endian on either host |
| Packets.UdpHeaderRoundTrip | src/packets.c:74-90 | parsing the encoding of a UDP header gives it back |
| Packets.UdpBytesRoundTrip | src/packets.c:74-90 | encoding the parse of 8 bytes gives the bytes back |
| Packets.EtherTypeCheck | src/packets.c:11-14 | is_ipv4 holds exactly when bytes 12-13 of the frame are 08 00 |
| Packets.ProtocolCheck | src/packets.c:16-19 | is_udp holds exactly when byte 9 of the IPv4 header is 0x11 |
| Packets.UdpOffsetAfterIpv4Header | src/packets.c:133-137 | the uint8_t offset 14 + 20 + option_size lands 14 + 4*IHL bytes in, for every IHL, including those below 5 where option_size wraps |
| Packets.UdpHexStartIhl | src/packets.c:138 | the UDP header's text starts at digit 2 * (14 + 4*IHL) |
| Packets.ProcessEthernetHeader | src/packets.c:92-100 | process_ethernet_header decodes the first 14 bytes of the text and parses them |
| Packets.ProcessIpv4Header | src/packets.c:102-129 | process_ipv4_header decodes the 20 bytes after the Ethernet header and parses them |
| Packets.ProcessUdpHeader | src/packets.c:131-142 | process_udp_header decodes the 8 bytes at the computed offset and parses them |
| FileHandler.StrideCount | src/file-handler.c:173-187 | the loop visits at most MAX_HEX_IN_LINE cells, each a whole three-character stride, and stops early only when fewer than three characters remain |
| FileHandler.StridesLength | src/file-handler.c:176-179 | at most two characters are written per cell |
| FileHandler.CopyStrides | src/file-handler.c:173-187 | the loop writes the two digits of every visited cell that does not start with a space, in order |
| FileHandler.StrideCopied | src/file-handler.c:176-179 | one iteration writes its cell's digits unless the cell starts with a space |
| FileHandler.StrideCountIs | src/file-handler.c:181-186 | the break after the stride that leaves fewer than three characters fixes the number of cells visited |
| FileHandler.ConvertLine | src/file-handler.c:152-196 | process_line writes at most one separator and 32 digits. It sets the flag when it was set or the line reaches past the offset column, and a line shorter than the offset column writes at most the separator |
| FileHandler.ProcessLine | src/file-handler.c:152-196 | process_line: the separator when the flag is set and the line starts with "0000", nothing more for a short line, else the digits of the cells after the offset column; then the flag is set |
| FileHandler.ConvertAll | src/file-handler.c:46-49 | once set, the flag stays set over the rest of the dump |
| FileHandler.ProcessExtractedLines | src/file-handler.c:46-49 | the read loop passes each line, with the flag threaded through, to process_line and collects the output |
| FileHandler.ConvertAllAppend | src/file-handler.c:46-49 | converting two runs of lines one after the other is converting their concatenation |
| FileHandler.CellsAt | src/file-handler.c:176-178 | the cell of byte k starts with the byte's digit pair |
| FileHandler.CellsNoNul | src/file-handler.c:183 | a dump row holds no NUL, so strlen sees all of it |
| FileHandler.RenderRowConvertible | src/file-handler.c:163-171 | a dump row is a line process_line reads only inside of |
| FileHandler.RowTextStride | src/file-handler.c:176-179 | cell j of a row yields the digit pair of byte j, or nothing past the row's bytes |
| FileHandler.RowStrides | src/file-handler.c:173-187 | the first k cells of a row yield the hex text of its first k bytes |
| FileHandler.StridesDecode | src/file-handler.c:173-187 | cells that each yield a byte's digit pair or nothing yield the hex text of those bytes |
| FileHandler.ConvertRow | src/file-handler.c:152-196 | a dump row converts to the separator (flag set and offset "0000…") followed by the hex text of its bytes, and sets the flag |
| FileHandler.PacketRowsValid | src/file-handler.c:157 | every row of a packet is a well-formed dump row |
| FileHandler.ConvertContinuation | src/file-handler.c:173-193 | the rows after a packet's first convert to the hex text of their bytes, with no separator |
| FileHandler.ConvertPacket | src/file-handler.c:152-196 | a packet's rows convert to one separator (unless it is the first packet) and the hex text of all its bytes |
| FileHandler.ConvertFirstRow | src/file-handler.c:156-160 | the first row of a packet brings the separator when the flag is set |
| FileHandler.DumpConverts | src/file-handler.c:9-55 | a whole dump converts to the hex texts of its packets, one per line |
| FileHandler.DumpConvertsFrom | src/file-handler.c:46-49 | a dump converts to its packets' hex texts joined by separators, and sets the flag when non-empty |
| FileHandler.StripNewline | src/file-handler.c:112-116 | the line is the buffer with at most one character dropped, a final newline, and it is dropped exactly when the buffer ends in one |
| FileHandler.StripNewlineLine | src/file-handler.c:112-116 | the newline fgets keeps, and only that, is removed |
| FileHandler.FlowKeyOfFrame | src/file-handler.c:118-128 | a frame written as a line of hex digits decodes to its own address pair (bytes 26-29 and 30-33) exactly when its EtherType is 08 00 and its protocol byte 17, and to no key otherwise |
| FileHandler.FrameEthernetText | src/packets.c:92-100 | the Ethernet header decoded from a frame's hex text is the frame's first 14 bytes |
| FileHandler.FrameIpv4Text | src/packets.c:102-109 | the IPv4 header decoded from a frame's hex text is the frame's bytes 14-33 |
| FileHandler.FrameUdpText | src/packets.c:131-139 | the UDP header lies in the frame's hex text where process_udp_header reads it |
| FileHandler.FrameKeyFromParts | src/file-handler.c:118-128 | a text whose headers decode to a frame's bytes has that frame's key |
| FileHandler.DecodeLine | src/file-handler.c:118-128 | the Ethernet header is decoded always, the IPv4 header only for IPv4, and the UDP header only for UDP. The key is the address pair exactly for UDP over IPv4 |
| FileHandler.ProcessInputLine | src/file-handler.c:97-137 | one line: strip the newline, decode, and insert the key of a UDP-over-IPv4 frame; the record list becomes the old list with the line's key counted; other lines change nothing |
| FileHandler.ProcessInputFile | src/file-handler.c:57-150 | process_input_file counts the key of every UDP-over-IPv4 line, in file order: the record list is the old list with all the keys observed, and the total count grows by their number |
| FileHandler.FlowKeysStep | src/file-handler.c:97-137 | the keys of one more line are the keys so far followed by the line's own |

## Left out

- Output: `print_hash_table`, `print_linked_list`'s table, `print_ethernet`, `print_ip`, `print_udp`, and the `PRINT_*` debug macros. They only print; the total that `print_linked_list` accumulates is `LinkedList.FlowList.TotalCount`.
- Freeing: `free_hash_table` and `free_linked_list`, and the `free` of the old bucket array in `rehash`. Dafny memory is managed.
- Allocation failures: a failing `calloc`, `perror` and `exit(EXIT_FAILURE)` are not modelled. Allocation always succeeds in the model.
- File I/O: `fopen`, `fclose` and the error messages of `process_extracted_packets` and `process_input_file`, and the early return when the converted file already exists. A file is the sequence of lines `fgets` returns, and the converted output is a string.
- The 257-byte `fgets` buffer: the `fgetc` loop that discards the rest of a longer line is not modelled. Each line is given whole, already cut to what `fgets` keeps.
- `is_little_endian`: it probes the host; it is replaced by the `Endianness` parameter, and every parser is proved to give the same result on both hosts.
- IPv4 options: `process_ipv4_header` decodes the option bytes into a buffer it frees at once. The option bytes affect nothing and are not modelled. For an IHL below 5, the wrapped `option_size` asks `calloc` for about 2^64 bytes, which fails and exits; the model keeps the wrapped value and the UDP offset it gives.
- Packets.HexDigitValue: `sscanf` with `%2hhx` on characters that are not hex digits is not modelled. Every decoded position is required to hold hex digits (`HexWellFormed`, `FileHandler.FrameDecodable`), and a line with a shorter or malformed frame is outside the model.
- FileHandler.ProcessLine: lines of 6 to 8 characters, where the loop reads at the terminating NUL and past it, are excluded by `ConvertibleLine`. So are lines holding a NUL character.
- FileHandler.ProcessInputFile: the UDP header is decoded, but the C code uses it only for debug printing, so it plays no part in the key.
- Hash.HashTable.Insert: the `*hash_table == NULL` guard is not modelled, since the table always exists once created. A NULL key pointer is `None`.
- Hash.HashTable.Insert: the 32-bit wrap-around of `num_elements`, `ref_count` and `*table_size * NEXT_MULTIPLIER` is not modelled; counts and sizes are unbounded.
- Primes.IsPrime: the 32-bit product `iteration * iteration`, which wraps for values near 2^32, is not modelled.
- Primes.NextPrime: the 32-bit `value++` is not modelled; the argument is unbounded.
- Pointers: chain entries point at records by index into the record list, not by address. The record list's global root and tail pointers are the list's sequence. `insert_into_linked_list`'s out-parameter is the returned index.

/**
 * The text handling of src/file-handler.c.
 *
 * process_line turns one line of an exported hexdump (a six-character offset
 * column followed by up to sixteen "hh " byte cells) into the bare hex digits
 * of its bytes, writing a newline before each packet but the first, so that
 * the converted file holds one packet per line.  process_input_file then reads
 * that file a line at a time, strips the newline, decodes the headers, and
 * counts the (source IP, destination IP) pair of every IPv4/UDP frame into
 * the hash table.  The files themselves are left out: a file is the sequence
 * of lines that fgets hands over, and the converted output is a string.
 */
module FileHandler {
  import opened Wrappers
  import opened ByteOrder
  import opened LinkedList
  import opened Packets
  import opened Hash

  /** SEPARATOR, FIRST_SIX_CHAR and MAX_HEX_IN_LINE of src/file-handler.h. */
  const Separator: char := '\n'
  const FirstSixChar: nat := 6
  const MaxHexInLine: nat := 16

  // ---------------------------------------------------------------- process_line

  /** strlen reaches the end of `s`: it holds no NUL character. */
  predicate NoNul(s: seq<char>)
  {
    forall i :: 0 <= i < |s| ==> s[i] != '\0'
  }

  /**
   * The lines process_line reads only inside of: shorter than the offset
   * column, or long enough for one whole byte cell after it.
   */
  predicate ConvertibleLine(line: seq<char>)
  {
    NoNul(line) && (|line| < FirstSixChar || |line| >= FirstSixChar + 3)
  }

  /** strncmp(line, "0000", 4) == 0: the line is the first row of a packet. */
  predicate StartsBlock(line: seq<char>)
  {
    |line| >= 4 && line[0] == '0' && line[1] == '0' && line[2] == '0' && line[3] == '0'
  }

  /**
   * The number of byte cells the loop visits in `rest`, the line after its
   * offset column: one per whole three-character stride, and no more than
   * MAX_HEX_IN_LINE.
   */
  function StrideCount(rest: seq<char>): (n: nat)
    ensures n <= MaxHexInLine && 3 * n <= |rest|
    ensures n < MaxHexInLine ==> |rest| < 3 * (n + 1)
  {
    var whole := |rest| / 3;
    if whole < MaxHexInLine then whole else MaxHexInLine
  }

  /** What stride `k` contributes: nothing when it starts with a space, else its two characters. */
  function Stride(rest: seq<char>, k: nat): seq<char>
    requires 3 * k + 2 <= |rest|
  {
    if rest[3 * k] == ' ' then [] else [rest[3 * k], rest[3 * k + 1]]
  }

  /** The output of the first `n` strides of `rest`. */
  function Strides(rest: seq<char>, n: nat): (out: seq<char>)
    requires 3 * n <= |rest|
  {
    if n == 0 then [] else Strides(rest, n - 1) + Stride(rest, n - 1)
  }

  /** One more stride appends that stride's output. */
  lemma StridesStep(rest: seq<char>, k: nat)
    requires 1 <= k && 3 * k <= |rest|
    ensures Strides(rest, k) == Strides(rest, k - 1) + Stride(rest, k - 1)
  {
  }

  /** Each stride writes at most two characters. */
  lemma {:induction false} StridesLength(rest: seq<char>, n: nat)
    requires 3 * n <= |rest|
    ensures |Strides(rest, n)| <= 2 * n
  {
    if n > 0 {
      StridesLength(rest, n - 1);
    }
  }

  /**
   * What process_line writes for `line` and the flag it leaves behind: a
   * separator when the flag is set and the line starts a packet, then the
   * strides after the offset column; lines shorter than the offset column
   * write nothing more and leave the flag alone.  (On lines of 6 to 8
   * characters, which process_line is never handed here, it writes no digits.)
   */
  function ConvertLine(line: seq<char>, flag: bool): (r: (seq<char>, bool))
    ensures |r.0| <= 1 + 2 * MaxHexInLine
    ensures r.1 <==> flag || |line| >= FirstSixChar
    ensures |r.0| > 0 && |line| < FirstSixChar ==> r.0 == [Separator]
  {
    var separator := if flag && StartsBlock(line) then [Separator] else [];
    if |line| < FirstSixChar then (separator, flag)
    else
      var rest := line[FirstSixChar..];
      StridesLength(rest, StrideCount(rest));
      (separator + Strides(rest, StrideCount(rest)), true)
  }

  /** process_line: the characters written to the output file and the new `*skip_newline_flag`. */
  method ProcessLine(line: seq<char>, skipNewlineFlag: bool) returns (output: seq<char>, flag: bool)
    requires ConvertibleLine(line)
    ensures (output, flag) == ConvertLine(line, skipNewlineFlag)
  {
    output := [];
    if skipNewlineFlag && StartsBlock(line) {
      output := [Separator];
    }
    flag := skipNewlineFlag;
    if |line| < FirstSixChar {
      return;
    }
    var digits := CopyStrides(line[FirstSixChar..]);
    output := output + digits;
    if !flag {
      flag := true;
    }
  }

  /**
   * The loop of process_line over the text after the offset column: at most
   * MAX_HEX_IN_LINE strides of three characters, writing the two characters
   * of each that does not start with a space, and stopping once fewer than
   * three characters are left.
   */
  method CopyStrides(rest: seq<char>) returns (output: seq<char>)
    requires |rest| >= 3
    ensures output == Strides(rest, StrideCount(rest))
  {
    output := [];
    var pos := 0;
    var iteration := 0;
    while iteration < MaxHexInLine
      invariant iteration <= MaxHexInLine
      invariant pos == 3 * iteration && pos + 3 <= |rest|
      invariant output == Strides(rest, iteration)
    {
      ghost var before := output;
      if rest[pos] != ' ' {
        output := output + [rest[pos], rest[pos + 1]];
      }
      StrideCopied(rest, iteration, before, output);
      pos := pos + 3;
      if |rest| - pos < 3 {
        StrideCountIs(rest, iteration + 1);
        return;
      }
      iteration := iteration + 1;
    }
    StrideCountIs(rest, iteration);
  }

  /** Copying stride `k` after the first `k` strides' output gives the first `k + 1` strides' output. */
  lemma StrideCopied(rest: seq<char>, k: nat, before: seq<char>, after: seq<char>)
    requires 3 * k + 3 <= |rest| && before == Strides(rest, k)
    requires after == if rest[3 * k] != ' ' then before + [rest[3 * k], rest[3 * k + 1]] else before
    ensures after == Strides(rest, k + 1)
  {
    StridesStep(rest, k + 1);
    if rest[3 * k] == ' ' {
      assert before + [] == before;
    }
  }

  /** The stride count is the one number of whole strides that either reaches the cap or leaves less than a stride. */
  lemma StrideCountIs(rest: seq<char>, n: nat)
    requires n <= MaxHexInLine && 3 * n <= |rest|
    requires n < MaxHexInLine ==> |rest| < 3 * (n + 1)
    ensures StrideCount(rest) == n
  {
  }

  /**
   * The converted text of a sequence of lines, each converted with the flag
   * the previous one left, starting from `flag`, and the flag the last one leaves.
   */
  function ConvertAll(lines: seq<seq<char>>, flag: bool): (r: (seq<char>, bool))
    ensures flag ==> r.1
  {
    if lines == [] then ([], flag)
    else
      var first := ConvertLine(lines[0], flag);
      var others := ConvertAll(lines[1..], first.1);
      (first.0 + others.0, others.1)
  }

  /** The read loop of process_extracted_packets: every line through process_line, the flag starting false. */
  method ProcessExtractedLines(lines: seq<seq<char>>) returns (output: seq<char>)
    requires forall i :: 0 <= i < |lines| ==> ConvertibleLine(lines[i])
    ensures output == ConvertAll(lines, false).0
  {
    output := [];
    var skipNewlineFlag := false;
    var i := 0;
    while i < |lines|
      invariant i <= |lines|
      invariant (output, skipNewlineFlag) == ConvertAll(lines[..i], false)
    {
      var converted, flag := ProcessLine(lines[i], skipNewlineFlag);
      ConvertAllAppend(lines[..i], [lines[i]], false);
      assert lines[..i + 1] == lines[..i] + [lines[i]];
      assert [lines[i]][1..] == [];
      assert ConvertAll([lines[i]], skipNewlineFlag) == (converted + [], flag);
      assert converted + [] == converted;
      output := output + converted;
      skipNewlineFlag := flag;
      i := i + 1;
    }
    assert lines[..i] == lines;
  }

  /** Converting two runs of lines one after the other is converting their concatenation. */
  lemma {:induction false} ConvertAllAppend(first: seq<seq<char>>, second: seq<seq<char>>, flag: bool)
    ensures ConvertAll(first + second, flag) ==
      (ConvertAll(first, flag).0 + ConvertAll(second, ConvertAll(first, flag).1).0,
       ConvertAll(second, ConvertAll(first, flag).1).1)
  {
    if first == [] {
      assert first + second == second;
      assert [] + ConvertAll(second, flag).0 == ConvertAll(second, flag).0;
    } else {
      var head := ConvertLine(first[0], flag);
      assert (first + second)[0] == first[0];
      assert (first + second)[1..] == first[1..] + second;
      ConvertAllAppend(first[1..], second, head.1);
      var middle := ConvertAll(first[1..], head.1);
      var rest := ConvertAll(second, middle.1);
      ConcatAssociative(head.0, middle.0, rest.0);
    }
  }

  lemma ConcatAssociative(a: seq<char>, b: seq<char>, c: seq<char>)
    ensures (a + b) + c == a + (b + c)
  {
  }

  // ---------------------------------------------------------------- hexdump rows

  /** A run of `n` spaces. */
  function Spaces(n: nat): (s: seq<char>)
    ensures |s| == n && forall i :: 0 <= i < n ==> s[i] == ' '
  {
    seq(n, _ => ' ')
  }

  /** The byte cells of a hexdump row: two hex digits and a space per byte. */
  function Cells(bytes: seq<bv8>): (cells: seq<char>)
    ensures |cells| == 3 * |bytes|
  {
    if bytes == [] then [] else Cells(bytes[..|bytes| - 1]) + HexPair(bytes[|bytes| - 1]) + [' ']
  }

  /** Cell `k` begins with the digit pair of byte `k`. */
  lemma {:induction false} CellsAt(bytes: seq<bv8>, k: nat)
    requires k < |bytes|
    ensures Cells(bytes)[3 * k] == HexPair(bytes[k])[0]
    ensures Cells(bytes)[3 * k + 1] == HexPair(bytes[k])[1]
  {
    var n := |bytes|;
    var prefix := bytes[..n - 1];
    assert Cells(bytes) == Cells(prefix) + HexPair(bytes[n - 1]) + [' '];
    if k < n - 1 {
      CellsAt(prefix, k);
      assert prefix[k] == bytes[k];
    }
  }

  /** Cells hold hex digits and spaces only. */
  lemma {:induction false} CellsNoNul(bytes: seq<bv8>)
    ensures NoNul(Cells(bytes))
  {
    if bytes != [] {
      CellsNoNul(bytes[..|bytes| - 1]);
      var pair := HexPair(bytes[|bytes| - 1]);
      assert pair[0] != '\0' && pair[1] != '\0';
    }
  }

  /**
   * One row of a hexdump as exported: the offset column, a cell per byte, the
   * cells of a short last row left blank, then the rest of the line (the
   * character column and the newline).
   */
  datatype DumpRow = DumpRow(offset: seq<char>, bytes: seq<bv8>, tail: seq<char>)

  predicate RowValid(row: DumpRow)
  {
    |row.offset| == FirstSixChar && |row.bytes| <= MaxHexInLine && NoNul(row.offset) && NoNul(row.tail)
  }

  /** A row after its offset column: the cells, the blank cells, the rest of the line. */
  function RowText(row: DumpRow): (text: seq<char>)
    requires |row.bytes| <= MaxHexInLine
    ensures |text| >= 3 * MaxHexInLine
  {
    Cells(row.bytes) + Spaces(3 * (MaxHexInLine - |row.bytes|)) + row.tail
  }

  /** The text of a row: its offset column, then the rest. */
  function RenderRow(row: DumpRow): (line: seq<char>)
    requires RowValid(row)
    ensures |line| >= FirstSixChar + 3 * MaxHexInLine
  {
    row.offset + RowText(row)
  }

  /** process_line accepts every rendered row. */
  lemma RenderRowConvertible(row: DumpRow)
    requires RowValid(row)
    ensures ConvertibleLine(RenderRow(row))
  {
    CellsNoNul(row.bytes);
    var line := RenderRow(row);
    var cells := Cells(row.bytes);
    var pad := Spaces(3 * (MaxHexInLine - |row.bytes|));
    forall i | 0 <= i < |line|
      ensures line[i] != '\0'
    {
      if i < 6 {
        assert line[i] == row.offset[i];
      } else if i < 6 + |cells| {
        assert line[i] == cells[i - 6];
      } else if i < 6 + |cells| + |pad| {
        assert line[i] == pad[i - 6 - |cells|];
      } else {
        assert line[i] == row.tail[i - 6 - |cells| - |pad|];
      }
    }
  }

  /** Stride `j` of a row is the digit pair of byte `j`, or blank past the last byte. */
  lemma RowTextStride(row: DumpRow, j: nat)
    requires |row.bytes| <= MaxHexInLine && j < MaxHexInLine
    ensures 3 * j + 2 <= |RowText(row)|
    ensures Stride(RowText(row), j) == if j < |row.bytes| then HexPair(row.bytes[j]) else []
  {
    var text := RowText(row);
    var cells := Cells(row.bytes);
    if j < |row.bytes| {
      CellsAt(row.bytes, j);
      assert text[3 * j] == cells[3 * j] && text[3 * j + 1] == cells[3 * j + 1];
    } else {
      var pad := Spaces(3 * (MaxHexInLine - |row.bytes|));
      assert text[3 * j] == pad[3 * j - |cells|];
    }
  }

  /** The first `k` strides of a row give the digits of its first `k` bytes (all of them past the last byte). */
  lemma RowStrides(row: DumpRow, k: nat)
    requires |row.bytes| <= MaxHexInLine && k <= MaxHexInLine
    ensures 3 * k <= |RowText(row)|
    ensures Strides(RowText(row), k) == HexEncode(row.bytes[..if k < |row.bytes| then k else |row.bytes|])
  {
    var text := RowText(row);
    forall j | 0 <= j < MaxHexInLine
      ensures 3 * j + 2 <= |text|
      ensures Stride(text, j) == if j < |row.bytes| then HexPair(row.bytes[j]) else []
    {
      RowTextStride(row, j);
    }
    StridesDecode(text, row.bytes, k);
  }

  /**
   * Text whose strides hold the digit pairs of `bytes` and are blank after
   * them: its first `k` strides are the digits of the first `k` bytes.
   */
  lemma {:induction false} StridesDecode(text: seq<char>, bytes: seq<bv8>, k: nat)
    requires |bytes| <= MaxHexInLine && k <= MaxHexInLine && 3 * MaxHexInLine <= |text|
    requires forall j :: 0 <= j < MaxHexInLine ==>
      Stride(text, j) == if j < |bytes| then HexPair(bytes[j]) else []
    ensures Strides(text, k) == HexEncode(bytes[..if k < |bytes| then k else |bytes|])
  {
    if k == 0 {
      assert bytes[..0] == [];
    } else {
      var j := k - 1;
      StridesDecode(text, bytes, j);
      StridesStep(text, k);
      var stride := Stride(text, j);
      if j < |bytes| {
        assert stride == HexPair(bytes[j]);
        HexEncodeSnoc(bytes, j);
      } else {
        assert stride == [];
        assert Strides(text, j) + stride == Strides(text, j);
      }
    }
  }

  /**
   * Round trip: converting a rendered row yields exactly the hex digits of its
   * bytes, after a separator when the flag is set and the row is a packet's
   * first, and leaves the flag set.
   */
  lemma ConvertRow(row: DumpRow, flag: bool)
    requires RowValid(row)
    ensures ConvertLine(RenderRow(row), flag) ==
      ((if flag && StartsBlock(row.offset) then [Separator] else []) + HexEncode(row.bytes), true)
  {
    var line := RenderRow(row);
    assert line[FirstSixChar..] == RowText(row);
    assert forall i :: 0 <= i < FirstSixChar ==> line[i] == row.offset[i];
    assert StartsBlock(line) == StartsBlock(row.offset);
    RowStrides(row, MaxHexInLine);
    assert row.bytes[..|row.bytes|] == row.bytes;
  }

  // ---------------------------------------------------------------- whole dumps

  /** The lines of a run of rows. */
  function RenderRows(rows: seq<DumpRow>): (lines: seq<seq<char>>)
    requires forall i :: 0 <= i < |rows| ==> RowValid(rows[i])
    ensures |lines| == |rows|
  {
    if rows == [] then [] else [RenderRow(rows[0])] + RenderRows(rows[1..])
  }

  /** The bytes of a run of rows, in order. */
  function RowBytes(rows: seq<DumpRow>): seq<bv8>
  {
    if rows == [] then [] else rows[0].bytes + RowBytes(rows[1..])
  }

  /** The rows of one packet: the first at offset 0000, the others not. */
  predicate PacketRows(rows: seq<DumpRow>)
  {
    |rows| > 0 && RowValid(rows[0]) && StartsBlock(rows[0].offset) && ContinuationRows(rows[1..])
  }

  /** Rows that do not start a packet. */
  predicate ContinuationRows(rows: seq<DumpRow>)
  {
    forall i :: 0 <= i < |rows| ==> RowValid(rows[i]) && !StartsBlock(rows[i].offset)
  }

  /** The rows of a packet are valid rows. */
  lemma PacketRowsValid(rows: seq<DumpRow>)
    requires PacketRows(rows)
    ensures forall i :: 0 <= i < |rows| ==> RowValid(rows[i])
  {
    forall i | 0 <= i < |rows|
      ensures RowValid(rows[i])
    {
      if i > 0 {
        assert rows[1..][i - 1] == rows[i];
      }
    }
  }

  /** Converting the continuation rows of a packet, with the flag set, gives the digits of their bytes. */
  lemma {:induction false} ConvertContinuation(rows: seq<DumpRow>)
    requires ContinuationRows(rows)
    ensures ConvertAll(RenderRows(rows), true) == (HexEncode(RowBytes(rows)), true)
  {
    if rows != [] {
      var lines := RenderRows(rows);
      var bytes := rows[0].bytes;
      assert lines[0] == RenderRow(rows[0]) && lines[1..] == RenderRows(rows[1..]);
      var head := ConvertLine(lines[0], true);
      assert head == (HexEncode(bytes), true) by {
        ConvertRow(rows[0], true);
        assert !StartsBlock(rows[0].offset);
        assert [] + HexEncode(bytes) == HexEncode(bytes);
      }
      ConvertContinuation(rows[1..]);
      var others := ConvertAll(lines[1..], true);
      assert ConvertAll(lines, true) == (head.0 + others.0, others.1);
      HexEncodeAppend(bytes, RowBytes(rows[1..]));
    }
  }

  /**
   * A packet's rows convert to the digits of all its bytes, preceded by a
   * separator exactly when the flag was set, and the flag ends set.
   */
  lemma ConvertPacket(rows: seq<DumpRow>, flag: bool)
    requires PacketRows(rows)
    ensures forall i :: 0 <= i < |rows| ==> RowValid(rows[i])
    ensures ConvertAll(RenderRows(rows), flag) ==
      ((if flag then [Separator] else []) + HexEncode(RowBytes(rows)), true)
  {
    PacketRowsValid(rows);
    var lines := RenderRows(rows);
    var separator: seq<char> := if flag then [Separator] else [];
    var digits := HexEncode(rows[0].bytes);
    var others := HexEncode(RowBytes(rows[1..]));
    assert lines[1..] == RenderRows(rows[1..]);
    ConvertFirstRow(rows, flag);
    ConvertContinuation(rows[1..]);
    ConvertAllCons(lines, flag);
    HexEncodeAppend(rows[0].bytes, RowBytes(rows[1..]));
    ConcatAssociative(separator, digits, others);
  }

  /** The first row of a packet converts to its digits, after a separator when the flag is set. */
  lemma ConvertFirstRow(rows: seq<DumpRow>, flag: bool)
    requires |rows| > 0 && forall i :: 0 <= i < |rows| ==> RowValid(rows[i])
    requires StartsBlock(rows[0].offset)
    ensures ConvertLine(RenderRows(rows)[0], flag) ==
      ((if flag then [Separator] else []) + HexEncode(rows[0].bytes), true)
  {
    assert RenderRows(rows)[0] == RenderRow(rows[0]);
    ConvertRow(rows[0], flag);
  }

  /** A non-empty run of lines converts its first line first. */
  lemma ConvertAllCons(lines: seq<seq<char>>, flag: bool)
    requires |lines| > 0
    ensures ConvertAll(lines, flag) ==
      (ConvertLine(lines[0], flag).0 + ConvertAll(lines[1..], ConvertLine(lines[0], flag).1).0,
       ConvertAll(lines[1..], ConvertLine(lines[0], flag).1).1)
  {
  }

  /** The lines of a whole hexdump, packet after packet. */
  function RenderDump(packets: seq<seq<DumpRow>>): (lines: seq<seq<char>>)
    requires forall p :: 0 <= p < |packets| ==> PacketRows(packets[p])
  {
    if packets == [] then []
    else
      PacketRowsValid(packets[0]);
      RenderRows(packets[0]) + RenderDump(packets[1..])
  }

  /** The hex lines of the packets, joined by SEPARATOR, the first preceded by one when `flag` is set. */
  function JoinPackets(packets: seq<seq<DumpRow>>, flag: bool): seq<char>
  {
    if packets == [] then []
    else (if flag then [Separator] else []) + HexEncode(RowBytes(packets[0])) + JoinPackets(packets[1..], true)
  }

  /**
   * The converted file of a whole hexdump holds each packet's bytes as one
   * line of hex digits, the lines joined by newlines, with no separator
   * before the first.
   */
  lemma DumpConverts(packets: seq<seq<DumpRow>>)
    requires forall p :: 0 <= p < |packets| ==> PacketRows(packets[p])
    ensures ConvertAll(RenderDump(packets), false).0 == JoinPackets(packets, false)
  {
    DumpConvertsFrom(packets, false);
  }

  lemma {:induction false} DumpConvertsFrom(packets: seq<seq<DumpRow>>, flag: bool)
    requires forall p :: 0 <= p < |packets| ==> PacketRows(packets[p])
    ensures ConvertAll(RenderDump(packets), flag) == (JoinPackets(packets, flag), flag || packets != [])
  {
    if packets != [] {
      ConvertPacket(packets[0], flag);
      DumpConvertsFrom(packets[1..], true);
      ConvertAllAppend(RenderRows(packets[0]), RenderDump(packets[1..]), flag);
    }
  }

  // ---------------------------------------------------------------- process_input_file

  /** The newline fgets keeps at the end of a line, if there is one, is dropped. */
  function StripNewline(buffer: seq<char>): (line: seq<char>)
    ensures line == buffer || line + ['\n'] == buffer
    ensures line == buffer <==> buffer == [] || buffer[|buffer| - 1] != '\n'
  {
    if |buffer| > 0 && buffer[|buffer| - 1] == '\n' then buffer[..|buffer| - 1] else buffer
  }

  /** A line read with its newline, or without one at the end of the file, is stripped back to itself. */
  lemma StripNewlineLine(line: seq<char>)
    requires forall i :: 0 <= i < |line| ==> line[i] != '\n'
    ensures StripNewline(line + ['\n']) == line
    ensures StripNewline(line) == line
  {
    assert (line + ['\n'])[..|line|] == line;
  }

  /** The Ethernet type bytes of the frame text are 08 00. */
  predicate CarriesIpv4(buffer: seq<char>)
    requires HexWellFormed(buffer, EthernetHeaderSize)
  {
    var eth := HexBytes(buffer, EthernetHeaderSize);
    eth[12] == 0x08 && eth[13] == 0x00
  }

  /** The 20 IPv4 header bytes after the Ethernet header are written in hex digits. */
  predicate Ipv4Readable(buffer: seq<char>)
  {
    2 * EthernetHeaderSize <= |buffer| && HexWellFormed(buffer[2 * EthernetHeaderSize..], Ipv4HeaderSize)
  }

  function Ipv4Bytes(buffer: seq<char>): (bytes: seq<bv8>)
    requires Ipv4Readable(buffer)
    ensures |bytes| == Ipv4HeaderSize
  {
    HexBytes(buffer[2 * EthernetHeaderSize..], Ipv4HeaderSize)
  }

  /** The IPv4 protocol byte is UDP's. */
  predicate CarriesUdp(buffer: seq<char>)
    requires Ipv4Readable(buffer)
  {
    Ipv4Bytes(buffer)[9] == UdpProtocol
  }

  /** Where the UDP header's text starts: after the Ethernet header and IHL 32-bit words. */
  function UdpStart(buffer: seq<char>): nat
    requires Ipv4Readable(buffer)
  {
    2 * (EthernetHeaderSize + 4 * ByteValue(Ipv4Bytes(buffer)[0] & 0xF))
  }

  /**
   * Every header process_input_file decodes from the line is written in hex
   * digits inside the line: the Ethernet header always, the IPv4 header when
   * the frame is IPv4, the UDP header when it is also UDP.
   */
  predicate FrameDecodable(buffer: seq<char>)
  {
    HexWellFormed(buffer, EthernetHeaderSize) &&
    (CarriesIpv4(buffer) ==> Ipv4Readable(buffer) && (CarriesUdp(buffer) ==> UdpReadable(buffer)))
  }

  /** The 8 UDP header bytes are written in hex digits where process_udp_header reads them. */
  predicate UdpReadable(buffer: seq<char>)
    requires Ipv4Readable(buffer)
  {
    UdpStart(buffer) <= |buffer| && HexWellFormed(buffer[UdpStart(buffer)..], UdpHeaderSize)
  }

  /** The flow a decoded line counts towards: its address pair when it is UDP over IPv4. */
  function FlowKey(buffer: seq<char>): Option<IpPair>
    requires FrameDecodable(buffer)
  {
    if CarriesIpv4(buffer) && CarriesUdp(buffer) then
      var ip := Ipv4Bytes(buffer);
      Some(IpPair(ip[12..16], ip[16..20]))
    else None
  }

  /**
   * The flow a raw frame belongs to, read off its bytes: EtherType 08 00 at
   * bytes 12-13, protocol 17 at byte 23, then the two addresses at 26-29 and
   * 30-33.
   */
  function FrameKey(frame: seq<bv8>): Option<IpPair>
    requires 34 <= |frame|
  {
    if frame[12] == 0x08 && frame[13] == 0x00 && frame[23] == UdpProtocol then
      Some(IpPair(frame[26..30], frame[30..34]))
    else None
  }

  /**
   * A frame written as one line of hex digits (what process_line produces) is
   * decodable, and the line's flow key is the frame's own address pair,
   * provided the frame is long enough for the UDP header its IHL points at.
   */
  lemma FlowKeyOfFrame(frame: seq<bv8>)
    requires 34 <= |frame|
    requires EthernetHeaderSize + 4 * ByteValue(frame[14] & 0xF) + UdpHeaderSize <= |frame|
    ensures FrameDecodable(HexEncode(frame))
    ensures FlowKey(HexEncode(frame)) == FrameKey(frame)
  {
    FrameEthernetText(frame);
    FrameUdpText(frame);
    FrameKeyFromParts(HexEncode(frame), frame);
  }

  lemma FrameEthernetText(frame: seq<bv8>)
    requires EthernetHeaderSize <= |frame|
    ensures HexWellFormed(HexEncode(frame), EthernetHeaderSize)
    ensures HexBytes(HexEncode(frame), EthernetHeaderSize) == frame[0..14]
  {
    HexDecodeAt(frame, 0, EthernetHeaderSize);
    assert HexEncode(frame)[2 * 0..] == HexEncode(frame);
  }

  lemma FrameIpv4Text(frame: seq<bv8>)
    requires 34 <= |frame|
    ensures Ipv4Readable(HexEncode(frame)) && Ipv4Bytes(HexEncode(frame)) == frame[14..34]
  {
    HexDecodeAt(frame, EthernetHeaderSize, Ipv4HeaderSize);
  }

  lemma FrameUdpText(frame: seq<bv8>)
    requires 34 <= |frame|
    requires EthernetHeaderSize + 4 * ByteValue(frame[14] & 0xF) + UdpHeaderSize <= |frame|
    ensures Ipv4Readable(HexEncode(frame)) && Ipv4Bytes(HexEncode(frame)) == frame[14..34]
    ensures UdpReadable(HexEncode(frame))
  {
    FrameIpv4Text(frame);
    HexDecodeAt(frame, EthernetHeaderSize + 4 * ByteValue(frame[14] & 0xF), UdpHeaderSize);
    assert Ipv4Bytes(HexEncode(frame))[0] == frame[14];
  }

  /** The flow key of a text whose headers decode to the frame's bytes. */
  lemma FrameKeyFromParts(text: seq<char>, frame: seq<bv8>)
    requires 34 <= |frame|
    requires HexWellFormed(text, EthernetHeaderSize) && HexBytes(text, EthernetHeaderSize) == frame[0..14]
    requires Ipv4Readable(text) && Ipv4Bytes(text) == frame[14..34]
    requires UdpReadable(text)
    ensures FrameDecodable(text)
    ensures FlowKey(text) == FrameKey(frame)
  {
    assert HexBytes(text, EthernetHeaderSize)[12] == frame[12];
    assert HexBytes(text, EthernetHeaderSize)[13] == frame[13];
    assert Ipv4Bytes(text)[9] == frame[23];
    AddressSlices(frame, Ipv4Bytes(text));
  }

  lemma AddressSlices(frame: seq<bv8>, ip: seq<bv8>)
    requires 34 <= |frame| && ip == frame[14..34]
    ensures ip[12..16] == frame[26..30] && ip[16..20] == frame[30..34]
  {
  }

  /** The key as a list: one key or none. */
  function KeyList(key: Option<IpPair>): seq<IpPair>
  {
    if key.Some? then [key.value] else []
  }

  predicate LinesDecodable(lines: seq<seq<char>>)
  {
    forall i :: 0 <= i < |lines| ==> FrameDecodable(StripNewline(lines[i]))
  }

  /** The keys the lines count, in order. */
  function FlowKeys(lines: seq<seq<char>>): seq<IpPair>
    requires LinesDecodable(lines)
  {
    if lines == [] then []
    else FlowKeys(lines[..|lines| - 1]) + KeyList(FlowKey(StripNewline(lines[|lines| - 1])))
  }

  /**
   * The decoding half of the read loop's body: the Ethernet header, and only
   * for IPv4 the IPv4 header, and only for UDP the UDP header; the result is
   * the address pair to count, if any.
   */
  method DecodeLine(inputBuffer: seq<char>, host: Endianness) returns (ipPair: Option<IpPair>)
    requires FrameDecodable(inputBuffer)
    ensures ipPair == FlowKey(inputBuffer)
  {
    var ethernetHeader := ProcessEthernetHeader(inputBuffer, host);
    EtherTypeCheck(HexBytes(inputBuffer, EthernetHeaderSize), host);
    if !IsIpv4(ethernetHeader) {
      return None;
    }
    var ipv4Header := ProcessIpv4Header(inputBuffer, host);
    if !IsUdp(ipv4Header) {
      return None;
    }
    ParseIpv4HeaderInRange(Ipv4Bytes(inputBuffer), host);
    UdpHexStartIhl(ipv4Header);
    var udpHeader := ProcessUdpHeader(inputBuffer, ipv4Header, host);
    return Some(IpPair(ipv4Header.sourceIp, ipv4Header.destinationIp));
  }

  /**
   * The body of the read loop of process_input_file for one line: strip the
   * newline, decode, and count the address pair of a UDP-over-IPv4 frame.
   */
  method ProcessInputLine(line: seq<char>, table: HashTable, host: Endianness)
    requires table.Valid()
    requires FrameDecodable(StripNewline(line))
    modifies table, table.buckets, table.list
    ensures table.Valid()
    ensures table.list.nodes == ObserveAll(old(table.list.nodes), KeyList(FlowKey(StripNewline(line))))
    ensures table.buckets == old(table.buckets) || fresh(table.buckets)
    ensures FlowKey(StripNewline(line)).None? ==>
      unchanged(table) && unchanged(table.list) && unchanged(table.buckets)
  {
    var inputBuffer := StripNewline(line);
    var ipPair := DecodeLine(inputBuffer, host);
    if ipPair.Some? {
      table.Insert(ipPair);
      assert [ipPair.value][1..] == [];
    }
  }

  /**
   * The read loop of process_input_file over the lines fgets returns: every
   * UDP-over-IPv4 line counts its address pair into the table, in order, and
   * the counts grow by the number of such lines.
   */
  method ProcessInputFile(lines: seq<seq<char>>, table: HashTable, host: Endianness)
    requires table.Valid()
    requires LinesDecodable(lines)
    modifies table, table.buckets, table.list
    ensures table.Valid()
    ensures table.list.nodes == ObserveAll(old(table.list.nodes), FlowKeys(lines))
    ensures SumCounts(table.list.nodes) == SumCounts(old(table.list.nodes)) + |FlowKeys(lines)|
  {
    var i := 0;
    while i < |lines|
      invariant i <= |lines|
      invariant table.Valid()
      invariant table.buckets == old(table.buckets) || fresh(table.buckets)
      invariant table.list.nodes == ObserveAll(old(table.list.nodes), FlowKeys(lines[..i]))
    {
      FlowKeysStep(lines, i);
      ProcessInputLine(lines[i], table, host);
      ObserveAllConcat(old(table.list.nodes), FlowKeys(lines[..i]), KeyList(FlowKey(StripNewline(lines[i]))));
      i := i + 1;
    }
    assert lines[..i] == lines;
    ObserveAllConserves(old(table.list.nodes), FlowKeys(lines));
  }

  /** The keys of one more line are the keys before it followed by its own. */
  lemma FlowKeysStep(lines: seq<seq<char>>, i: nat)
    requires LinesDecodable(lines) && i < |lines|
    ensures LinesDecodable(lines[..i]) && LinesDecodable(lines[..i + 1])
    ensures FlowKeys(lines[..i + 1]) == FlowKeys(lines[..i]) + KeyList(FlowKey(StripNewline(lines[i])))
  {
    assert lines[..i + 1][..i] == lines[..i];
  }
}

/**
 * `GDBInterface.formatMemoryContent` (src/debugger/gdbInterface.ts): a
 * classic hex dump of a memory snapshot. A two-line header names the 16
 * columns; then each 16-byte chunk gets one line with its address, its
 * bytes in hex and its printable characters.
 */
module HexDump {
  import opened Results
  import opened NodeBuffer
  import opened TextFormat

  // The layout's widths are written as literals: 16 bytes to a line, a
  // 156-character header, and 81-character lines while addresses fit in 32 bits.

  // ---------------------------------------------------------------- header

  /** The first `n` column labels: a space and the column number as two upper-case hex digits. */
  function ColumnLabels(n: nat): (r: string)
    requires n <= 256
    ensures |r| == 3 * n
  {
    seq(3 * n, i requires 0 <= i < 3 * n => if i % 3 == 0 then ' ' else ByteHex(i / 3)[i % 3 - 1])
  }

  /** Label `k` is a space and the two digits of `k`. */
  lemma ColumnLabelAt(n: nat, k: nat)
    requires k < n <= 256
    ensures var r := ColumnLabels(n);
      r[3 * k] == ' ' && r[3 * k + 1] == ByteHex(k)[0] && r[3 * k + 2] == ByteHex(k)[1]
  {
    assert (3 * k) / 3 == k && (3 * k) % 3 == 0;
    assert (3 * k + 1) / 3 == k && (3 * k + 1) % 3 == 1;
    assert (3 * k + 2) / 3 == k && (3 * k + 2) % 3 == 2;
  }

  /** One more pass of the header loop appends the next label. */
  lemma ColumnLabelsStep(n: nat)
    requires n < 256
    ensures ColumnLabels(n + 1) == ColumnLabels(n) + " " + ByteHex(n)
  {
    var labels, tail := ColumnLabels(n), " " + ByteHex(n);
    var longer := ColumnLabels(n + 1);
    ColumnLabelAt(n + 1, n);
    forall i | 0 <= i < 3 * n
      ensures longer[i] == labels[i]
    {
    }
    assert longer == labels + tail;
    AppendAssoc(labels, " ", ByteHex(n));
  }

  /** Label `k` reads back as `k`. */
  lemma ColumnLabelReadsBack(n: nat, k: nat)
    requires k < n <= 256
    ensures ColumnLabels(n)[3 * k] == ' '
    ensures ColumnLabels(n)[3 * k + 1..3 * k + 3] == ByteHex(k)
    ensures ParseRadix(ColumnLabels(n)[3 * k + 1..3 * k + 3], 16) == Some(k)
    ensures IsUpperHexDigit(ColumnLabels(n)[3 * k + 1]) && IsUpperHexDigit(ColumnLabels(n)[3 * k + 2])
  {
    var labels := ColumnLabels(n);
    ColumnLabelAt(n, k);
    assert labels[3 * k + 1..3 * k + 3] == [labels[3 * k + 1], labels[3 * k + 2]];
    ByteHexReadsBack(k);
  }

  function Header(): string {
    Repeat(' ', 9) + ColumnLabels(16) + "  |0123456789ABCDEF|\n" + Repeat('-', 77) + "\n"
  }

  /**
   * The header is 156 characters: nine spaces, the 48 characters of column
   * labels, the ASCII column heading, then a rule of 77 dashes and a newline.
   */
  lemma HeaderFrame()
    ensures var h := Header();
      && |h| == 156
      && (forall i :: 0 <= i < 9 ==> h[i] == ' ')
      && h[9..57] == ColumnLabels(16)
      && h[57..78] == "  |0123456789ABCDEF|\n"
      && (forall i :: 78 <= i < 155 ==> h[i] == '-')
      && h[155] == '\n'
  {
    var h := Header();
    var tail := "  |0123456789ABCDEF|\n" + Repeat('-', 77) + "\n";
    assert h == Repeat(' ', 9) + ColumnLabels(16) + tail;
    assert h[57..] == tail;
    assert forall i :: 78 <= i < 155 ==> h[i] == tail[i - 57];
  }

  lemma HeaderLength()
    ensures |Header()| == 156
  {
  }

  /** Column `k` of the header is a space and two upper-case hex digits that read back as `k`. */
  lemma HeaderColumns()
    ensures var h := Header();
      forall k :: 0 <= k < 16 ==>
        && h[9 + 3 * k] == ' '
        && IsUpperHexDigit(h[10 + 3 * k]) && IsUpperHexDigit(h[11 + 3 * k])
        && ParseRadix(h[10 + 3 * k..12 + 3 * k], 16) == Some(k)
  {
    HeaderFrame();
    LabelCells(Header());
  }

  /** The cells of any text that carries the sixteen column labels from index 9. */
  lemma LabelCells(h: string)
    requires |h| >= 57 && h[9..57] == ColumnLabels(16)
    ensures forall k :: 0 <= k < 16 ==>
      && h[9 + 3 * k] == ' '
      && IsUpperHexDigit(h[10 + 3 * k]) && IsUpperHexDigit(h[11 + 3 * k])
      && ParseRadix(h[10 + 3 * k..12 + 3 * k], 16) == Some(k)
  {
    var labels := h[9..57];
    forall k | 0 <= k < 16
      ensures h[9 + 3 * k] == ' '
      ensures IsUpperHexDigit(h[10 + 3 * k]) && IsUpperHexDigit(h[11 + 3 * k])
      ensures ParseRadix(h[10 + 3 * k..12 + 3 * k], 16) == Some(k)
    {
      ColumnLabelReadsBack(16, k);
      assert h[9 + 3 * k] == labels[3 * k];
      assert h[10 + 3 * k] == labels[3 * k + 1] && h[11 + 3 * k] == labels[3 * k + 2];
      assert h[10 + 3 * k..12 + 3 * k] == labels[3 * k + 1..3 * k + 3];
    }
  }

  // ---------------------------------------------------------------- one line

  /** `map(byte => two upper-case hex digits).join(' ')`. */
  function HexPart(chunk: seq<byte>): (r: string)
    ensures |r| == if chunk == [] then 0 else 3 * |chunk| - 1
  {
    if chunk == [] then ""
    else if |chunk| == 1 then ByteHex(chunk[0] as nat)
    else HexPart(chunk[..|chunk| - 1]) + " " + ByteHex(chunk[|chunk| - 1] as nat)
  }

  /** Byte `k` is written at `3 * k`, and a space follows every byte but the last. */
  lemma {:induction false} HexPartDigits(chunk: seq<byte>)
    ensures var r := HexPart(chunk);
      && (forall k :: 0 <= k < |chunk| ==>
            r[3 * k] == ByteHex(chunk[k] as nat)[0] && r[3 * k + 1] == ByteHex(chunk[k] as nat)[1])
      && (forall k :: 0 <= k < |chunk| - 1 ==> r[3 * k + 2] == ' ')
  {
    if |chunk| > 1 {
      var front := chunk[..|chunk| - 1];
      HexPartDigits(front);
      var r := HexPart(chunk);
      var last := ByteHex(chunk[|chunk| - 1] as nat);
      assert r == HexPart(front) + " " + last;
      forall k | 0 <= k < |chunk|
        ensures r[3 * k] == ByteHex(chunk[k] as nat)[0] && r[3 * k + 1] == ByteHex(chunk[k] as nat)[1]
      {
        if k < |front| {
          assert chunk[k] == front[k];
        }
      }
    }
  }

  /** The printable characters 32..126 stand for themselves, every other byte for '.'. */
  function AsciiChar(b: byte): char {
    if 32 <= b <= 126 then (b as int) as char else '.'
  }

  function AsciiPart(chunk: seq<byte>): (r: string)
    ensures |r| == |chunk|
    ensures forall k :: 0 <= k < |chunk| ==> r[k] == AsciiChar(chunk[k])
  {
    seq(|chunk|, k requires 0 <= k < |chunk| => AsciiChar(chunk[k]))
  }

  /** The dump line of the chunk at `address`. */
  function Line(address: nat, chunk: seq<byte>): string
    requires |chunk| <= 16
  {
    AddressText(address) + ": " + PadEnd(HexPart(chunk), 48, ' ') + "  |" + PadEnd(AsciiPart(chunk), 16, ' ') + "|" + "\n"
  }

  /** The six pieces of a line sit at fixed columns when the address fits in 32 bits. */
  lemma LineParts(address: nat, chunk: seq<byte>)
    requires address < 0x1_0000_0000 && |chunk| <= 16
    ensures var line := Line(address, chunk);
      && |line| == 81
      && line[..10] == AddressText(address)
      && line[10..12] == ": "
      && line[12..60] == PadEnd(HexPart(chunk), 48, ' ')
      && line[60..63] == "  |"
      && line[63..79] == PadEnd(AsciiPart(chunk), 16, ' ')
      && line[79] == '|' && line[80] == '\n'
  {
    var addr := AddressText(address);
    AddressTextLength(address);
    var hex := PadEnd(HexPart(chunk), 48, ' ');
    var ascii := PadEnd(AsciiPart(chunk), 16, ' ');
    assert |addr| == 10 && |hex| == 48 && |ascii| == 16;
    assert Line(address, chunk) == addr + ": " + hex + "  |" + ascii + "|" + "\n";
    Columns(addr, hex, ascii);
  }

  /** Where the address, hex and ASCII parts and the separators sit in a line of 81 characters. */
  lemma Columns(a: string, c: string, e: string)
    requires |a| == 10 && |c| == 48 && |e| == 16
    ensures var s := a + ": " + c + "  |" + e + "|" + "\n";
      && |s| == 81
      && s[..10] == a && s[10..12] == ": " && s[12..60] == c
      && s[60..63] == "  |" && s[63..79] == e && s[79] == '|' && s[80] == '\n'
  {
    var s1 := a + ": ";
    var s2 := s1 + c;
    var s3 := s2 + "  |";
    var s4 := s3 + e;
    var s := s4 + "|" + "\n";
    assert s[..63] == s3 && s[63..79] == e;
    assert s3[..60] == s2 && s3[60..] == "  |";
    assert s2[..12] == s1 && s2[12..] == c;
    assert s1[..10] == a && s1[10..] == ": ";
  }

  /** The same, character by character. */
  lemma Cells(a: string, c: string, e: string)
    requires |a| == 10 && |c| == 48 && |e| == 16
    ensures var s := a + ": " + c + "  |" + e + "|" + "\n";
      && |s| == 81
      && (forall i :: 0 <= i < 48 ==> s[12 + i] == c[i])
      && (forall i :: 0 <= i < 16 ==> s[63 + i] == e[i])
  {
    Columns(a, c, e);
    var s := a + ": " + c + "  |" + e + "|" + "\n";
    forall i | 0 <= i < 48
      ensures s[12 + i] == c[i]
    {
      assert s[12..60][i] == c[i];
    }
    forall i | 0 <= i < 16
      ensures s[63 + i] == e[i]
    {
      assert s[63..79][i] == e[i];
    }
  }

  /** A line whose address fits in 32 bits is 81 characters. */
  lemma LineLength(address: nat, chunk: seq<byte>)
    requires address < 0x1_0000_0000 && |chunk| <= 16
    ensures |Line(address, chunk)| == 81
  {
    AddressTextLength(address);
  }

  /** A line is the address, ": ", the padded hex part, "  |", the padded ASCII part, "|" and a newline. */
  lemma LineCells(address: nat, chunk: seq<byte>)
    requires address < 0x1_0000_0000 && |chunk| <= 16
    ensures var line := Line(address, chunk);
      && |line| == 81
      && (forall i :: 0 <= i < 48 ==> line[12 + i] == PadEnd(HexPart(chunk), 48, ' ')[i])
      && (forall i :: 0 <= i < 16 ==> line[63 + i] == PadEnd(AsciiPart(chunk), 16, ' ')[i])
  {
    var addr := AddressText(address);
    AddressTextLength(address);
    var hex := PadEnd(HexPart(chunk), 48, ' ');
    var ascii := PadEnd(AsciiPart(chunk), 16, ' ');
    assert |addr| == 10 && |hex| == 48 && |ascii| == 16;
    assert Line(address, chunk) == addr + ": " + hex + "  |" + ascii + "|" + "\n";
    Cells(addr, hex, ascii);
  }

  /** Byte `k` appears as two hex digits at column 12 + 3k, with a space between bytes and spaces up to column 60. */
  lemma HexColumn(line: string, chunk: seq<byte>)
    requires |line| == 81 && |chunk| <= 16
    requires forall i :: 0 <= i < 48 ==> line[12 + i] == PadEnd(HexPart(chunk), 48, ' ')[i]
    ensures forall k :: 0 <= k < |chunk| ==>
      line[12 + 3 * k] == ByteHex(chunk[k] as nat)[0] && line[13 + 3 * k] == ByteHex(chunk[k] as nat)[1]
    ensures forall i :: 12 + |HexPart(chunk)| <= i < 60 || (12 <= i < 60 && (i - 12) % 3 == 2) ==> line[i] == ' '
  {
    var hexPart := HexPart(chunk);
    var hex := PadEnd(hexPart, 48, ' ');
    HexPartDigits(chunk);
    forall k | 0 <= k < |chunk|
      ensures line[12 + 3 * k] == ByteHex(chunk[k] as nat)[0] && line[13 + 3 * k] == ByteHex(chunk[k] as nat)[1]
    {
      assert line[12 + 3 * k] == hex[3 * k] == hexPart[3 * k];
      assert line[12 + (3 * k + 1)] == hex[3 * k + 1] == hexPart[3 * k + 1];
    }
    forall i | 12 + |hexPart| <= i < 60 || (12 <= i < 60 && (i - 12) % 3 == 2)
      ensures line[i] == ' '
    {
      var j := i - 12;
      assert line[12 + j] == hex[j];
      if j < |hexPart| {
        var k := j / 3;
        assert j == 3 * k + 2;
        assert hex[3 * k + 2] == hexPart[3 * k + 2];
      }
    }
  }

  /** Byte `k` appears as a character at column 63 + k, with spaces up to column 79. */
  lemma AsciiColumn(line: string, chunk: seq<byte>)
    requires |line| == 81 && |chunk| <= 16
    requires forall i :: 0 <= i < 16 ==> line[63 + i] == PadEnd(AsciiPart(chunk), 16, ' ')[i]
    ensures forall k :: 0 <= k < |chunk| ==> line[63 + k] == AsciiChar(chunk[k])
    ensures forall i :: 63 + |chunk| <= i < 79 ==> line[i] == ' '
  {
    var ascii := PadEnd(AsciiPart(chunk), 16, ' ');
    forall i | 63 + |chunk| <= i < 79
      ensures line[i] == ' '
    {
      var j := i - 63;
      assert line[63 + j] == ascii[j];
    }
  }

  /**
   * A line is 81 characters when its address fits in 32 bits: the address
   * as "0x" and eight upper-case hex digits, ": ", byte `k` as two hex
   * digits at column 12 + 3k with a space between bytes, spaces up to column
   * 60, "  |", byte `k` as a character at column 63 + k, spaces up to column
   * 79, "|" and a newline.
   */
  lemma LineLayout(address: nat, chunk: seq<byte>)
    requires address < 0x1_0000_0000 && |chunk| <= 16
    ensures var line := Line(address, chunk);
      && |line| == 81
      && line[..10] == AddressText(address)
      && line[10..12] == ": "
      && (forall k :: 0 <= k < |chunk| ==>
            line[12 + 3 * k] == ByteHex(chunk[k] as nat)[0] && line[13 + 3 * k] == ByteHex(chunk[k] as nat)[1])
      && (forall i :: 12 + |HexPart(chunk)| <= i < 60 || (12 <= i < 60 && (i - 12) % 3 == 2) ==> line[i] == ' ')
      && line[60..63] == "  |"
      && (forall k :: 0 <= k < |chunk| ==> line[63 + k] == AsciiChar(chunk[k]))
      && (forall i :: 63 + |chunk| <= i < 79 ==> line[i] == ' ')
      && line[79] == '|' && line[80] == '\n'
  {
    LineParts(address, chunk);
    LineCells(address, chunk);
    HexColumn(Line(address, chunk), chunk);
    AsciiColumn(Line(address, chunk), chunk);
  }

  /** Two characters that are the digits of `b` read back as `b`. */
  lemma DigitsReadBack(text: string, at: nat, b: nat)
    requires b < 256 && at + 2 <= |text|
    requires text[at] == ByteHex(b)[0] && text[at + 1] == ByteHex(b)[1]
    ensures ParseRadix(text[at..at + 2], 16) == Some(b)
  {
    assert text[at..at + 2] == ByteHex(b);
    ByteHexReadsBack(b);
  }

  /** The two hex digits of byte `k` on its line read back as the byte. */
  lemma LineHexReadsBack(address: nat, chunk: seq<byte>, k: nat)
    requires address < 0x1_0000_0000 && k < |chunk| <= 16
    ensures ParseRadix(Line(address, chunk)[12 + 3 * k..14 + 3 * k], 16) == Some(chunk[k] as nat)
  {
    LineCells(address, chunk);
    var line := Line(address, chunk);
    HexColumn(line, chunk);
    DigitsReadBack(line, 12 + 3 * k, chunk[k] as nat);
  }

  /** The address at the head of a line reads back as the address. */
  lemma LineAddressReadsBack(address: nat, chunk: seq<byte>)
    requires address < 0x1_0000_0000 && |chunk| <= 16
    ensures Line(address, chunk)[..2] == "0x"
    ensures ParseRadix(Line(address, chunk)[2..10], 16) == Some(address)
  {
    LineParts(address, chunk);
    AddressTextReadsBack(address);
    var line := Line(address, chunk);
    assert line[2..10] == AddressText(address)[2..];
  }

  // ---------------------------------------------------------------- the dump

  /** The number of lines: one per started chunk of 16 bytes. */
  function LineCount(length: nat): nat {
    (length + 16 - 1) / 16
  }

  /** Chunk `k` exists exactly when it starts inside the data. */
  lemma LineCountMeans(length: nat, k: nat)
    ensures k < LineCount(length) <==> 16 * k < length
  {
    var q := (length + 15) / 16;
    assert 16 * q <= length + 15 < 16 * q + 16;
  }

  /** `data.slice(offset, offset + 16)` for chunk `k`: sixteen bytes, or what is left at the end. */
  function Chunk(data: seq<byte>, k: nat): (r: seq<byte>)
    requires 16 * k < |data|
    ensures |r| == if |data| - 16 * k < 16 then |data| - 16 * k else 16
  {
    var offset := 16 * k;
    if offset + 16 <= |data| then data[offset..offset + 16] else data[offset..]
  }

  /** The slice the chunk loop takes at `offset` is chunk `offset / 16`. */
  lemma ChunkAt(data: seq<byte>, offset: nat, k: nat)
    requires offset == 16 * k && offset < |data|
    ensures Chunk(data, k) == if offset + 16 <= |data| then data[offset..offset + 16] else data[offset..]
  {
  }

  /** The line of each chunk, chunk `j` shown at `base + 16 * j`. */
  function Lines(base: nat, data: seq<byte>): (r: seq<string>)
    ensures |r| == LineCount(|data|)
  {
    seq(LineCount(|data|), j requires 0 <= j < LineCount(|data|) => LineCountMeans(|data|, j); Line(base + 16 * j, Chunk(data, j)))
  }

  /** Line `j` of the dump shows chunk `j` at `base + 16 * j`. */
  lemma LinesAt(base: nat, data: seq<byte>)
    ensures forall j :: 0 <= j < LineCount(|data|) ==> Lines(base, data)[j] == Line(base + 16 * j, Chunk(data, j))
  {
    forall j | 0 <= j < LineCount(|data|)
      ensures Lines(base, data)[j] == Line(base + 16 * j, Chunk(data, j))
    {
      LineCountMeans(|data|, j);
    }
  }

  /** The strings one after another. */
  function Concat(parts: seq<string>): string {
    if parts == [] then "" else Concat(parts[..|parts| - 1]) + parts[|parts| - 1]
  }

  /** The whole dump of `data` read from `base`. */
  function Dump(base: nat, data: seq<byte>): string {
    Header() + Concat(Lines(base, data))
  }

  /** `formatMemoryContent`: the header loop over the 16 columns, then the loop over the chunks. */
  method FormatMemoryContent(baseAddress: nat, data: seq<byte>) returns (output: string)
    ensures output == Dump(baseAddress, data)
  {
    output := DumpHeader();
    output := DumpLines(output, baseAddress, data);
  }

  /** The header: the column loop, the ASCII heading and the rule. */
  method DumpHeader() returns (output: string)
    ensures output == Header()
  {
    output := "";
    output := output + "         ";
    var i := 0;
    while i < 16
      invariant i <= 16
      invariant output == Repeat(' ', 9) + ColumnLabels(i)
    {
      ColumnLabelsStep(i);
      AppendAssoc(Repeat(' ', 9), ColumnLabels(i), " " + ByteHex(i));
      output := output + (" " + ByteHex(i));
      i := i + 1;
    }
    output := output + "  |0123456789ABCDEF|\n";
    output := output + Repeat('-', 77) + "\n";
  }

  /** The chunk loop: one line per 16 bytes, appended to `header`. */
  method DumpLines(header: string, baseAddress: nat, data: seq<byte>) returns (output: string)
    ensures output == header + Concat(Lines(baseAddress, data))
  {
    output := header;
    ghost var lines := Lines(baseAddress, data);
    var offset := 0;
    ghost var n := 0;
    LineCountMeans(|data|, |lines|);
    while offset < |data|
      invariant offset == 16 * n && n <= |lines|
      invariant output == header + Concat(lines[..n])
    {
      LineCountMeans(|data|, n);
      ConcatStep(lines, n);
      AppendAssoc(header, Concat(lines[..n]), lines[n]);
      output := AppendChunk(output, baseAddress, data, offset, n);
      offset := offset + 16;
      n := n + 1;
    }
    assert lines[..n] == lines;
  }

  /** One pass of the chunk loop: the chunk at `offset` and its line appended to `before`. */
  method AppendChunk(before: string, baseAddress: nat, data: seq<byte>, offset: nat, ghost n: nat) returns (after: string)
    requires offset == 16 * n && n < LineCount(|data|)
    ensures after == before + Lines(baseAddress, data)[n]
  {
    LineCountMeans(|data|, n);
    var lineData := if offset + 16 <= |data| then data[offset..offset + 16] else data[offset..];
    ChunkAt(data, offset, n);
    var line := DumpLine(baseAddress + offset, lineData);
    after := before + line;
  }

  lemma AppendAssoc(a: string, b: string, c: string)
    ensures a + (b + c) == (a + b) + c
  {
  }

  /** One more string on the end. */
  lemma ConcatStep(parts: seq<string>, n: nat)
    requires n < |parts|
    ensures Concat(parts[..n + 1]) == Concat(parts[..n]) + parts[n]
  {
    assert parts[..n + 1][..n] == parts[..n];
  }

  /** One pass of the chunk loop: the address, the padded hex part, the padded ASCII part. */
  method DumpLine(address: nat, lineData: seq<byte>) returns (text: string)
    requires |lineData| <= 16
    ensures text == Line(address, lineData)
  {
    text := AddressText(address) + ": ";
    text := text + PadEnd(HexPart(lineData), 48, ' ');
    text := text + "  |";
    text := text + PadEnd(AsciiPart(lineData), 16, ' ');
    text := text + "|";
    text := text + "\n";
  }

  /** Empty data gives the header alone. */
  lemma EmptyDumpIsHeader(base: nat)
    ensures Dump(base, []) == Header()
  {
    assert Lines(base, []) == [];
  }

  /** Strings of 81 characters each, put one after another: string `j` sits at 81 * j. */
  lemma {:induction false} ConcatBlocks(parts: seq<string>)
    requires forall j :: 0 <= j < |parts| ==> |parts[j]| == 81
    ensures var all := Concat(parts);
      && |all| == 81 * |parts|
      && forall j :: 0 <= j < |parts| ==> all[81 * j..81 * (j + 1)] == parts[j]
  {
    if parts != [] {
      var k := |parts| - 1;
      var front := parts[..k];
      ConcatBlocks(front);
      var all := Concat(front) + parts[k];
      forall j | 0 <= j < |parts|
        ensures all[81 * j..81 * (j + 1)] == parts[j]
      {
        if j < k {
          assert all[81 * j..81 * (j + 1)] == Concat(front)[81 * j..81 * (j + 1)];
        } else {
          assert all[81 * j..] == parts[k];
        }
      }
    }
  }

  /** A 156-character header and 81-character lines: line `j` starts at 156 + 81 * j. */
  lemma HeaderThenBlocks(header: string, lines: seq<string>)
    requires |header| == 156
    requires forall j :: 0 <= j < |lines| ==> |lines[j]| == 81
    ensures var all := header + Concat(lines);
      && |all| == 156 + 81 * |lines|
      && all[..156] == header
      && forall j :: 0 <= j < |lines| ==> all[156 + 81 * j..156 + 81 * j + 81] == lines[j]
  {
    ConcatBlocks(lines);
    var body := Concat(lines);
    var all := header + body;
    forall j | 0 <= j < |lines|
      ensures all[156 + 81 * j..156 + 81 * j + 81] == lines[j]
    {
      assert all[156 + 81 * j..156 + 81 * j + 81] == body[81 * j..81 * (j + 1)];
    }
  }

  /** Every line of data whose addresses fit in 32 bits is 81 characters. */
  lemma LinesLength(base: nat, data: seq<byte>)
    requires base + |data| <= 0x1_0000_0000
    ensures forall j :: 0 <= j < LineCount(|data|) ==> |Lines(base, data)[j]| == 81
  {
    forall j | 0 <= j < LineCount(|data|)
      ensures |Lines(base, data)[j]| == 81
    {
      LineCountMeans(|data|, j);
      LineLength(base + 16 * j, Chunk(data, j));
    }
  }

  /**
   * The dump of data whose addresses fit in 32 bits is the 156-character
   * header followed by ceil(len / 16) lines of 81 characters, line `j`
   * showing the bytes at `base + 16 * j`.
   */
  lemma DumpLayout(base: nat, data: seq<byte>)
    requires base + |data| <= 0x1_0000_0000
    ensures var dump := Dump(base, data);
      && |dump| == 156 + 81 * LineCount(|data|)
      && dump[..156] == Header()
      && forall j :: 0 <= j < LineCount(|data|) ==>
           var at := 156 + 81 * j;
           dump[at..at + 81] == Line(base + 16 * j, Chunk(data, j))
  {
    HeaderLength();
    LinesLength(base, data);
    LinesAt(base, data);
    HeaderThenBlocks(Header(), Lines(base, data));
  }

  /** The chunks, one after another. */
  function Chunks(data: seq<byte>, k: nat): seq<byte>
    requires k <= LineCount(|data|)
  {
    if k == 0 then [] else LineCountMeans(|data|, k - 1); Chunks(data, k - 1) + Chunk(data, k - 1)
  }

  /** Every byte is shown exactly once: the chunks of the dump put back together are the data. */
  lemma {:induction false} ChunksCover(data: seq<byte>, k: nat)
    requires k <= LineCount(|data|)
    ensures Chunks(data, k) == data[..if 16 * k < |data| then 16 * k else |data|]
  {
    if k > 0 {
      ChunksCover(data, k - 1);
      var offset := 16 * (k - 1);
      var end := if offset + 16 <= |data| then offset + 16 else |data|;
      assert data[..end] == data[..offset] + data[offset..end];
    }
  }

  lemma AllChunksCover(data: seq<byte>)
    ensures Chunks(data, LineCount(|data|)) == data
  {
    ChunksCover(data, LineCount(|data|));
    assert data[..|data|] == data;
  }
}

/** The debugging dump of `hex_dump` in `layout/create_minimal_gds.py`: the first bytes of a file,
    sixteen per line, each line holding the offset in four uppercase hex digits, the bytes as
    two-digit uppercase hex left-justified in a 48-character column, and the printable bytes
    between bars. A line decoder is the partner that reads the offsets and bytes back. */
module HexDump {
  import opened Wrappers
  import opened Bytes
  import opened Text

  /** How many bytes `hex_dump` reads when the caller gives no limit. */
  const DEFAULT_MAX_BYTES: int := 200

  /** Bytes per line. */
  const LINE_BYTES: nat := 16

  /** Width the hex column is left-justified to. */
  const HEX_COLUMN_WIDTH: nat := 48

  /** `f.read(max_bytes)` on a file opened `'rb'`: -1 reads the whole file, a limit below -1
      makes the buffered reader raise `ValueError` (`None` here), and any other limit reads at
      most that many bytes. */
  function ReadPrefix(file: seq<byte>, maxBytes: int): (data: Option<seq<byte>>)
    ensures data.None? <==> maxBytes < -1
    ensures maxBytes == -1 ==> data == Some(file)
    ensures 0 <= maxBytes ==> data.Some? && |data.value| == if maxBytes < |file| then maxBytes else |file|
    ensures data.Some? ==> data.value <= file
  {
    if maxBytes < -1 then None
    else if maxBytes == -1 || |file| <= maxBytes then Some(file)
    else Some(file[..maxBytes])
  }

  // ---------------------------------------------------------------------------------------
  // Hexadecimal digits.

  const HEX_CHARS: string := "0123456789ABCDEF"

  /** The uppercase digit for a value below 16, as the `X` format writes it. */
  function HexDigit(d: nat): (c: char)
    requires d < 16
    ensures c != ' ' && c != ':'
  {
    HEX_CHARS[d]
  }

  /** The value of an uppercase hex digit, `None` for any other character. */
  function HexValue(c: char): (v: Option<nat>)
    ensures v.Some? ==> v.value < 16
  {
    if '0' <= c <= '9' then Some(c as int - '0' as int)
    else if 'A' <= c <= 'F' then Some(c as int - 'A' as int + 10)
    else None
  }

  lemma HexValueOfDigit(d: nat)
    requires d < 16
    ensures HexValue(HexDigit(d)) == Some(d)
  {
  }

  predicate IsHexDigit(c: char) {
    HexValue(c).Some?
  }

  predicate AllHex(s: string) {
    forall k :: 0 <= k < |s| ==> IsHexDigit(s[k])
  }

  /** The value of a run of hex digits, most significant first. */
  function ParseHex(s: string): nat
    requires AllHex(s)
  {
    if |s| == 0 then 0 else ParseHex(s[..|s| - 1]) * 16 + HexValue(s[|s| - 1]).value
  }

  function Pow16(k: nat): (p: nat)
    ensures p >= 1
  {
    if k == 0 then 1 else 16 * Pow16(k - 1)
  }

  /** The hex digits of a natural number without leading zeros; `n` fits in exactly that many
      digits. */
  function HexDigits(n: nat): (s: string)
    ensures 1 <= |s| && AllHex(s) && ParseHex(s) == n
    ensures n < Pow16(|s|) && (|s| > 1 ==> Pow16(|s| - 1) <= n)
  {
    if n < 16 then
      HexValueOfDigit(n);
      [HexDigit(n)]
    else
      var front := HexDigits(n / 16);
      HexValueOfDigit(n % 16);
      var s := front + [HexDigit(n % 16)];
      assert s[..|s| - 1] == front;
      s
  }

  /** A value below 16^width needs at most `width` digits. */
  lemma {:induction false} HexDigitsFit(n: nat, width: nat)
    requires 1 <= width && n < Pow16(width)
    ensures |HexDigits(n)| <= width
  {
    if n >= 16 {
      assert width >= 2;
      HexDigitsFit(n / 16, width - 1);
    }
  }

  function Zeros(n: nat): (z: string)
    ensures |z| == n && AllHex(z)
    ensures forall k :: 0 <= k < n ==> z[k] == '0'
  {
    if n == 0 then [] else ['0'] + Zeros(n - 1)
  }

  /** Leading zeros do not change a hex value. */
  lemma {:induction false} ParseHexLeadingZeros(n: nat, s: string)
    requires AllHex(s)
    ensures ParseHex(Zeros(n) + s) == ParseHex(s)
  {
    var t := Zeros(n) + s;
    if |s| == 0 {
      assert t == Zeros(n);
      ZerosValue(n);
    } else {
      assert t[..|t| - 1] == Zeros(n) + s[..|s| - 1];
      ParseHexLeadingZeros(n, s[..|s| - 1]);
    }
  }

  lemma {:induction false} ZerosValue(n: nat)
    ensures ParseHex(Zeros(n)) == 0
  {
    if n > 0 {
      assert Zeros(n)[..n - 1] == Zeros(n - 1) by {
        assert Zeros(n) == Zeros(n - 1) + ['0'];
      }
      ZerosValue(n - 1);
    }
  }

  /** `f'{n:0{width}X}'`: uppercase hex digits, zero-padded on the left to at least `width`. */
  function HexWidth(n: nat, width: nat): (s: string)
    ensures AllHex(s) && ParseHex(s) == n
    ensures |s| >= width && |s| >= 1
    ensures 1 <= width && n < Pow16(width) ==> |s| == width
    ensures ':' !in s && ' ' !in s
  {
    var digits := HexDigits(n);
    var s := if |digits| < width then Zeros(width - |digits|) + digits else digits;
    assert ParseHex(s) == n by {
      if |digits| < width { ParseHexLeadingZeros(width - |digits|, digits); }
    }
    assert 1 <= width && n < Pow16(width) ==> |digits| <= width by {
      if 1 <= width && n < Pow16(width) { HexDigitsFit(n, width); }
    }
    assert forall k :: 0 <= k < |s| ==> IsHexDigit(s[k]);
    s
  }

  /** `f'{b:02X}'` of a byte: always exactly two digits, high nibble first. */
  function Hex2(b: byte): (s: string)
    ensures |s| == 2 && s[0] != ' '
  {
    [HexDigit(b / 16), HexDigit(b % 16)]
  }

  /** The two digits read back as the byte. */
  lemma Hex2Value(b: byte)
    ensures AllHex(Hex2(b)) && ParseHex(Hex2(b)) == b
  {
    var s := Hex2(b);
    HexValueOfDigit(b / 16);
    HexValueOfDigit(b % 16);
    assert s[..1] == [s[0]] && s[..1][..0] == [];
    assert ParseHex(s[..1]) == b / 16;
  }

  // ---------------------------------------------------------------------------------------
  // One line of the dump.

  /** `' '.join(f'{b:02X}' for b in chunk)`. */
  function HexColumn(chunk: seq<byte>): (s: string)
    ensures |s| == if |chunk| == 0 then 0 else 3 * |chunk| - 1
  {
    if |chunk| == 0 then ""
    else if |chunk| == 1 then Hex2(chunk[0])
    else Hex2(chunk[0]) + " " + HexColumn(chunk[1..])
  }

  function Spaces(n: nat): (s: string)
    ensures |s| == n && forall k :: 0 <= k < n ==> s[k] == ' '
  {
    if n == 0 then "" else " " + Spaces(n - 1)
  }

  /** `f'{s:<width}'`: left-justified, padded with spaces, never truncated. */
  function PadRight(s: string, width: nat): (r: string)
    ensures |r| == if |s| < width then width else |s|
    ensures r[..|s|] == s
    ensures forall k :: |s| <= k < |r| ==> r[k] == ' '
  {
    if |s| < width then s + Spaces(width - |s|) else s
  }

  /** The ASCII column: bytes 32..126 as themselves, every other byte as `.`. */
  function AsciiColumn(chunk: seq<byte>): (s: string)
    ensures |s| == |chunk|
  {
    seq(|chunk|, j requires 0 <= j < |chunk| => if 32 <= chunk[j] <= 126 then chunk[j] as char else '.')
  }

  /** The ASCII column holds only printable characters; any character but `.` is the byte
      itself, and a `.` stands for a `.` byte or for a byte that is not printable. */
  lemma AsciiColumnShows(chunk: seq<byte>)
    ensures var s := AsciiColumn(chunk);
      && (forall j :: 0 <= j < |chunk| ==> 32 <= s[j] as int <= 126)
      && (forall j :: 0 <= j < |chunk| && s[j] != '.' ==> s[j] as int == chunk[j])
      && (forall j :: 0 <= j < |chunk| ==> (s[j] == '.' <==> chunk[j] == 46 || !(32 <= chunk[j] <= 126)))
  {
  }

  /** `f"{i:04X}: {hex_str:<48} |{ascii_str}|"`. */
  function DumpLine(offset: nat, chunk: seq<byte>): string {
    HexWidth(offset, 4) + ": " + PadRight(HexColumn(chunk), HEX_COLUMN_WIDTH) + (" |" + AsciiColumn(chunk) + "|")
  }

  /** The bytes of the line that starts at `offset`: sixteen, or fewer at the end. */
  function ChunkAt(data: seq<byte>, offset: nat): (chunk: seq<byte>)
    requires offset < |data|
    ensures 1 <= |chunk| <= LINE_BYTES
  {
    data[offset..if offset + LINE_BYTES <= |data| then offset + LINE_BYTES else |data|]
  }

  /** The loop `for i in range(start, len(data), 16)` with `chunk = data[i:i+16]`: each offset
      with the bytes shown at it. */
  function Chunks(data: seq<byte>, start: nat): (cs: seq<(nat, seq<byte>)>)
    requires start <= |data|
    ensures LINE_BYTES * (|cs| - 1) < |data| - start <= LINE_BYTES * |cs|
    decreases |data| - start
  {
    if start == |data| then []
    else [(start, ChunkAt(data, start))] + Chunks(data, start + |ChunkAt(data, start)|)
  }

  /** One printed line per chunk. */
  function Lines(cs: seq<(nat, seq<byte>)>): (lines: seq<string>)
    ensures |lines| == |cs|
  {
    seq(|cs|, k requires 0 <= k < |cs| => DumpLine(cs[k].0, cs[k].1))
  }

  /** The lines for `data[start:]`, one per sixteen bytes, the last one possibly shorter. */
  function DumpFrom(data: seq<byte>, start: nat): (lines: seq<string>)
    requires start <= |data|
  {
    Lines(Chunks(data, start))
  }

  /** The lines `hex_dump` prints after its heading for a file and a read limit (200 bytes when
      the caller gives none); `None` when the read raises, so that only the error handler prints.
      The dump is faithful: it has ceil(n/16) lines for the n bytes read, and reading them back
      gives exactly those bytes, every offset counted from the start. */
  function Dump(file: seq<byte>, maxBytes: int := DEFAULT_MAX_BYTES): (lines: Option<seq<string>>)
    ensures lines.None? <==> maxBytes < -1
    ensures lines.Some? ==> var data := ReadPrefix(file, maxBytes).value;
      && |lines.value| == (|data| + 15) / 16
      && Undump(lines.value, 0) == Some(data)
  {
    var data :- ReadPrefix(file, maxBytes);
    DumpFromRoundTrip(data, 0);
    assert data[0..] == data;
    Some(DumpFrom(data, 0))
  }

  // ---------------------------------------------------------------------------------------
  // The partner: reading a dump back.

  /** Reads space-separated two-digit hex pairs until a space stands where a pair should start;
      `None` on a character that is not a hex digit. */
  function DecodePairs(field: string): Option<seq<byte>>
    decreases |field|
  {
    if |field| < 2 || field[0] == ' ' then Some([])
    else if !IsHexDigit(field[0]) || !IsHexDigit(field[1]) then None
    else
      var b: byte := HexValue(field[0]).value * 16 + HexValue(field[1]).value;
      var rest :- if |field| >= 3 then DecodePairs(field[3..]) else Some([]);
      Some([b] + rest)
  }

  /** Reads a dump line back into its offset and bytes: the hex digits before the first `:`, then
      the pairs of the 48-character column after `": "`. */
  function DecodeLine(line: string): Option<(nat, seq<byte>)> {
    if ':' !in line then None
    else
      var p := IndexOf(line, ':');
      if !AllHex(line[..p]) || |line| < p + 2 + HEX_COLUMN_WIDTH then None
      else
        var bytes :- DecodePairs(line[p + 2..p + 2 + HEX_COLUMN_WIDTH]);
        Some((ParseHex(line[..p]), bytes))
  }

  lemma Hex2Pair(b: byte)
    ensures var s := Hex2(b);
      IsHexDigit(s[0]) && IsHexDigit(s[1]) && HexValue(s[0]).value * 16 + HexValue(s[1]).value == b
  {
    HexValueOfDigit(b / 16);
    HexValueOfDigit(b % 16);
  }

  /** A pair followed by nothing, or by a space and more text, decodes to its byte in front of
      whatever that text decodes to. */
  lemma {:induction false} DecodePairsCons(b: byte, t: string, rest: seq<byte>)
    requires |t| == 0 || (t[0] == ' ' && DecodePairs(t[1..]) == Some(rest))
    ensures DecodePairs(Hex2(b) + t) == Some([b] + if |t| == 0 then [] else rest)
  {
    var field := Hex2(b) + t;
    Hex2Pair(b);
    assert field[0] == Hex2(b)[0] && field[1] == Hex2(b)[1];
    if |t| > 0 {
      assert field[3..] == t[1..];
    }
  }

  /** Padding decodes to nothing, and so does what follows its first space. */
  lemma {:induction false} DecodeSpaces(pad: string)
    requires forall k :: 0 <= k < |pad| ==> pad[k] == ' '
    ensures DecodePairs(pad) == Some([])
    ensures |pad| > 0 ==> DecodePairs(pad[1..]) == Some([])
  {
    if |pad| > 1 {
      assert pad[1..][0] == ' ';
    }
  }

  /** The hex column followed by any padding of spaces reads back as the chunk. */
  lemma {:induction false} DecodeHexColumn(chunk: seq<byte>, pad: string)
    requires forall k :: 0 <= k < |pad| ==> pad[k] == ' '
    ensures DecodePairs(HexColumn(chunk) + pad) == Some(chunk)
  {
    if |chunk| == 0 {
      assert HexColumn(chunk) + pad == pad;
      DecodeSpaces(pad);
    } else if |chunk| == 1 {
      DecodeSpaces(pad);
      DecodePairsCons(chunk[0], pad, []);
      assert HexColumn(chunk) == Hex2(chunk[0]);
      assert [chunk[0]] + [] == chunk;
    } else {
      var rest := HexColumn(chunk[1..]);
      var t := " " + rest + pad;
      DecodeHexColumn(chunk[1..], pad);
      assert t[1..] == rest + pad;
      DecodePairsCons(chunk[0], t, chunk[1..]);
      assert HexColumn(chunk) + pad == Hex2(chunk[0]) + t;
      assert [chunk[0]] + chunk[1..] == chunk;
    }
  }

  /** The first `:` of a line whose head has none is the one right after the head. */
  lemma {:induction false} IndexOfAfter(head: string, rest: string)
    requires ':' !in head && |rest| > 0 && rest[0] == ':'
    ensures ':' in head + rest && IndexOf(head + rest, ':') == |head|
  {
    var line := head + rest;
    assert line[|head|] == ':';
    forall k | 0 <= k < |head|
      ensures line[k] != ':'
    {
      assert line[k] == head[k];
    }
  }

  /** A line made of hex digits, `": "`, a 48-character column and anything after it decodes to
      the digits' value and the column's bytes. */
  lemma {:induction false} DecodeLineOf(head: string, field: string, tail: string, bytes: seq<byte>)
    requires AllHex(head) && ':' !in head && |field| == HEX_COLUMN_WIDTH
    requires DecodePairs(field) == Some(bytes)
    ensures DecodeLine(head + ": " + field + tail) == Some((ParseHex(head), bytes))
  {
    var line := head + ": " + field + tail;
    var p := |head|;
    IndexOfAfter(head, ": " + field + tail);
    assert line == head + (": " + field + tail);
    assert line[..p] == head;
    assert line[p + 2..p + 2 + HEX_COLUMN_WIDTH] == field;
  }

  /** A dump line of up to sixteen bytes reads back as its offset and its bytes. */
  lemma {:induction false} DumpLineRoundTrip(offset: nat, chunk: seq<byte>)
    requires |chunk| <= LINE_BYTES
    ensures DecodeLine(DumpLine(offset, chunk)) == Some((offset, chunk))
  {
    var col := HexColumn(chunk);
    var field := PadRight(col, HEX_COLUMN_WIDTH);
    var pad := field[|col|..];
    assert field == col + pad;
    DecodeHexColumn(chunk, pad);
    DecodeLineOf(HexWidth(offset, 4), field, " |" + AsciiColumn(chunk) + "|", chunk);
  }

  /** Reads every line back and concatenates the bytes, checking that each line's offset is
      where the previous line stopped. */
  function Undump(lines: seq<string>, start: nat): Option<seq<byte>> {
    if |lines| == 0 then Some([])
    else
      var line :- DecodeLine(lines[0]);
      if line.0 != start then None
      else
        var rest :- Undump(lines[1..], start + |line.1|);
        Some(line.1 + rest)
  }

  lemma {:induction false} UndumpCons(lines: seq<string>, start: nat, bytes: seq<byte>, rest: seq<byte>)
    requires |lines| > 0 && DecodeLine(lines[0]) == Some((start, bytes))
    requires Undump(lines[1..], start + |bytes|) == Some(rest)
    ensures Undump(lines, start) == Some(bytes + rest)
  {
  }

  /** The bytes of the chunks, in order. */
  function Payload(cs: seq<(nat, seq<byte>)>): seq<byte> {
    if |cs| == 0 then [] else cs[0].1 + Payload(cs[1..])
  }

  /** Each chunk starts where the previous one stopped, the first at `start`. */
  predicate Contiguous(cs: seq<(nat, seq<byte>)>, start: nat) {
    |cs| == 0 || (cs[0].0 == start && Contiguous(cs[1..], start + |cs[0].1|))
  }

  /** The chunks of `data[start:]` tile it: contiguous from `start`, each of at most sixteen
      bytes, and together exactly the bytes from `start` on. */
  lemma {:induction false} ChunksCover(data: seq<byte>, start: nat)
    requires start <= |data|
    ensures var cs := Chunks(data, start);
      && Contiguous(cs, start)
      && (forall k :: 0 <= k < |cs| ==> |cs[k].1| <= LINE_BYTES)
      && Payload(cs) == data[start..]
    decreases |data| - start
  {
    var cs := Chunks(data, start);
    if start < |data| {
      var chunk := ChunkAt(data, start);
      var end := start + |chunk|;
      assert cs[0] == (start, chunk) && cs[1..] == Chunks(data, end);
      ChunksCover(data, end);
      assert forall k :: 1 <= k < |cs| ==> cs[k] == cs[1..][k - 1];
      assert data[start..] == chunk + data[end..];
    }
  }

  /** Lines that each read back as their chunk, for contiguous chunks, read back together as the
      chunks' bytes. */
  lemma {:induction false} UndumpAll(lines: seq<string>, cs: seq<(nat, seq<byte>)>, start: nat)
    requires |lines| == |cs| && Contiguous(cs, start)
    requires forall k :: 0 <= k < |lines| ==> DecodeLine(lines[k]) == Some(cs[k])
    ensures Undump(lines, start) == Some(Payload(cs))
  {
    if |cs| > 0 {
      assert forall k :: 0 <= k < |lines| - 1 ==> lines[1..][k] == lines[k + 1] && cs[1..][k] == cs[k + 1];
      UndumpAll(lines[1..], cs[1..], start + |cs[0].1|);
      UndumpCons(lines, start, cs[0].1, Payload(cs[1..]));
    }
  }

  /** The dump is faithful: reading its lines back gives exactly the bytes that were read, with
      every offset a multiple of 16 counted from the start. */
  lemma DumpFromRoundTrip(data: seq<byte>, start: nat)
    requires start <= |data|
    ensures Undump(DumpFrom(data, start), start) == Some(data[start..])
  {
    var cs := Chunks(data, start);
    var lines := Lines(cs);
    ChunksCover(data, start);
    forall k | 0 <= k < |lines|
      ensures DecodeLine(lines[k]) == Some(cs[k])
    {
      DumpLineRoundTrip(cs[k].0, cs[k].1);
    }
    UndumpAll(lines, cs, start);
  }

  /** Without a limit from the caller, `hex_dump` shows the first 200 bytes of a longer file, in
      13 lines, and the whole of a file of at most 200 bytes. */
  lemma DefaultDump(file: seq<byte>)
    ensures Dump(file).Some?
    ensures |file| > 200 ==> |Dump(file).value| == 13 && Undump(Dump(file).value, 0) == Some(file[..200])
    ensures |file| <= 200 ==> Undump(Dump(file).value, 0) == Some(file)
  {
  }

  /** Chunk `k` starts at offset `start + 16·k` and holds the sixteen bytes from there (fewer at
      the end); there is such a chunk exactly when that offset lies inside the data. */
  lemma {:induction false} ChunkAtIndex(data: seq<byte>, start: nat, k: nat)
    requires start <= |data|
    ensures k < |Chunks(data, start)| <==> start + LINE_BYTES * k < |data|
    ensures var offset := start + LINE_BYTES * k;
      offset < |data| ==> Chunks(data, start)[k] == (offset, ChunkAt(data, offset))
    decreases |data| - start
  {
    if start < |data| && k > 0 {
      var end := start + |ChunkAt(data, start)|;
      ChunkAtIndex(data, end, k - 1);
      if end == start + LINE_BYTES {
        assert end + LINE_BYTES * (k - 1) == start + LINE_BYTES * k;
      }
    }
  }

  /** Line `k` of the dump of `data[start:]` shows the `k`-th run of sixteen bytes (the last run
      possibly shorter) at offset `start + 16·k`; there is such a line exactly when that offset
      lies inside the data. */
  lemma DumpLineAt(data: seq<byte>, start: nat, k: nat)
    requires start <= |data|
    ensures k < |DumpFrom(data, start)| <==> start + LINE_BYTES * k < |data|
    ensures var offset := start + LINE_BYTES * k;
      offset < |data| ==> DumpFrom(data, start)[k] == DumpLine(offset, ChunkAt(data, offset))
  {
    ChunkAtIndex(data, start, k);
    if start + LINE_BYTES * k < |data| {
    }
  }

  /** Below offset 0x10000 a line is laid out in fixed columns: four offset digits, `": "`, the
      48-character hex column, `" |"`, one character per byte, `"|"`. */
  lemma {:induction false} DumpLineLayout(offset: nat, chunk: seq<byte>)
    requires offset < 0x10000 && |chunk| <= LINE_BYTES
    ensures var line := DumpLine(offset, chunk);
      && |line| == 57 + |chunk|
      && line[..4] == HexWidth(offset, 4) && line[4..6] == ": "
      && line[6..54] == PadRight(HexColumn(chunk), HEX_COLUMN_WIDTH)
      && line[54..56] == " |" && line[56..56 + |chunk|] == AsciiColumn(chunk) && line[56 + |chunk|] == '|'
  {
    assert Pow16(4) == 0x10000;
    var head := HexWidth(offset, 4);
    var field := PadRight(HexColumn(chunk), HEX_COLUMN_WIDTH);
    var ascii := AsciiColumn(chunk);
    var line := DumpLine(offset, chunk);
    assert |head| == 4 && |field| == 48;
    assert line == head + ": " + field + " |" + ascii + "|";
  }
}
